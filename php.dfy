/**
 * The PHP built-ins the console command relies on, over strings as seq<char>:
 * truthiness of a string, trim(), explode()/implode() on a one-character
 * separator, and the byte-wise order strcmp() gives two non-numeric strings.
 */
module Php {

  /** A value, or PHP's `false`/`null` where the source uses those for "nothing". */
  datatype Option<T> = None | Some(value: T)

  /** A string in a boolean context: only "" and "0" are falsy. */
  predicate Truthy(s: string) {
    s != "" && s != "0"
  }

  /** The characters trim() strips by default: space, \t, \n, \r, \0 and \x0B. */
  predicate IsTrimmed(c: char) {
    c == ' ' || c == '\t' || c == '\n' || c == '\r' || c as int == 0 || c as int == 0x0B
  }

  /** ltrim(): drops trimmed characters from the front. */
  function TrimLeft(s: string): string
  {
    if s != [] && IsTrimmed(s[0]) then TrimLeft(s[1..]) else s
  }

  /** rtrim(): drops trimmed characters from the back. */
  function TrimRight(s: string): string
  {
    if s != [] && IsTrimmed(s[|s| - 1]) then TrimRight(s[..|s| - 1]) else s
  }

  /** ltrim() keeps the longest suffix of `s` that does not start with a trimmed character. */
  lemma {:induction false} TrimLeftSuffix(s: string)
    ensures |TrimLeft(s)| <= |s| && TrimLeft(s) == s[|s| - |TrimLeft(s)|..]
    ensures forall i :: 0 <= i < |s| - |TrimLeft(s)| ==> IsTrimmed(s[i])
    ensures TrimLeft(s) == [] || !IsTrimmed(TrimLeft(s)[0])
  {
    if s != [] && IsTrimmed(s[0]) {
      TrimLeftSuffix(s[1..]);
    }
  }

  /** rtrim() keeps the longest prefix of `s` that does not end with a trimmed character. */
  lemma {:induction false} TrimRightPrefix(s: string)
    ensures |TrimRight(s)| <= |s| && TrimRight(s) == s[..|TrimRight(s)|]
    ensures forall i :: |TrimRight(s)| <= i < |s| ==> IsTrimmed(s[i])
    ensures TrimRight(s) == [] || !IsTrimmed(TrimRight(s)[|TrimRight(s)| - 1])
    ensures TrimRight(s) != [] && s != [] ==> TrimRight(s)[0] == s[0]
  {
    if s != [] && IsTrimmed(s[|s| - 1]) {
      TrimRightPrefix(s[..|s| - 1]);
    }
  }

  /** trim(): `s` with every leading and trailing trimmed character removed. */
  function Trim(s: string): string
  {
    TrimRight(TrimLeft(s))
  }

  /**
   * The result of trim() is the slice s[lo..lo + |Trim(s)|], everything
   * outside that slice is a trimmed character, and the result neither
   * starts nor ends with one.
   */
  lemma TrimIsSlice(s: string) returns (lo: nat)
    ensures lo + |Trim(s)| <= |s| && Trim(s) == s[lo..lo + |Trim(s)|]
    ensures forall i :: 0 <= i < lo ==> IsTrimmed(s[i])
    ensures forall i :: lo + |Trim(s)| <= i < |s| ==> IsTrimmed(s[i])
    ensures Trim(s) == [] || (!IsTrimmed(Trim(s)[0]) && !IsTrimmed(Trim(s)[|Trim(s)| - 1]))
  {
    var left := TrimLeft(s);
    TrimLeftSuffix(s);
    TrimRightPrefix(left);
    lo := |s| - |left|;
    assert forall i :: lo <= i < |s| ==> s[i] == left[i - lo];
  }

  /** A string with nothing to strip at either end is its own trim(). */
  lemma {:induction false} TrimClean(t: string)
    requires t == [] || (!IsTrimmed(t[0]) && !IsTrimmed(t[|t| - 1]))
    ensures Trim(t) == t
  {
  }

  /** implode(): the pieces joined with `sep` between consecutive ones. */
  function Implode(sep: char, pieces: seq<string>): string
  {
    if pieces == [] then ""
    else if |pieces| == 1 then pieces[0]
    else pieces[0] + [sep] + Implode(sep, pieces[1..])
  }

  /**
   * explode() on a one-character separator: the maximal runs of `s` between
   * occurrences of `sep`, in order; "" explodes to [""] and "a,,b" to
   * ["a", "", "b"]. Joining the pieces again gives back `s`.
   */
  function Explode(sep: char, s: string): (r: seq<string>)
    ensures |r| >= 1
    ensures forall k :: 0 <= k < |r| ==> sep !in r[k]
    ensures Implode(sep, r) == s
  {
    if s == [] then [""]
    else
      var rest := Explode(sep, s[1..]);
      if s[0] == sep then
        [""] + rest
      else
        var r := [[s[0]] + rest[0]] + rest[1..];
        assert r[1..] == rest[1..];
        assert s == [s[0]] + s[1..];
        r
  }

  /** explode() undoes implode() on pieces that do not contain the separator. */
  lemma {:induction false} ExplodeImplode(sep: char, pieces: seq<string>)
    requires |pieces| >= 1
    requires forall k :: 0 <= k < |pieces| ==> sep !in pieces[k]
    ensures Explode(sep, Implode(sep, pieces)) == pieces
  {
    if |pieces| == 1 {
      ExplodeNoSep(sep, pieces[0]);
    } else {
      ExplodeImplode(sep, pieces[1..]);
      ExplodeAppend(sep, pieces[0], Implode(sep, pieces[1..]));
      assert pieces == [pieces[0]] + pieces[1..];
    }
  }

  lemma {:induction false} ExplodeNoSep(sep: char, s: string)
    requires sep !in s
    ensures Explode(sep, s) == [s]
  {
    if s != [] {
      ExplodeNoSep(sep, s[1..]);
    }
  }

  /** Exploding `p + sep + t`, where `p` holds no separator, gives `p` then the pieces of `t`. */
  lemma {:induction false} ExplodeAppend(sep: char, p: string, t: string)
    requires sep !in p
    ensures Explode(sep, p + [sep] + t) == [p] + Explode(sep, t)
  {
    if p == [] {
      assert p + [sep] + t == [sep] + t;
      assert ([sep] + t)[1..] == t;
    } else {
      var u := p + [sep] + t;
      assert u[0] == p[0] && u[1..] == p[1..] + [sep] + t;
      ExplodeAppend(sep, p[1..], t);
      var rest := Explode(sep, u[1..]);
      assert rest[0] == p[1..] && rest[1..] == Explode(sep, t);
      assert Explode(sep, u) == [[p[0]] + rest[0]] + rest[1..];
      assert [p[0]] + p[1..] == p;
    }
  }

  /**
   * strcmp(s, t) < 0 for two non-numeric strings: the first differing
   * character decides, and a proper prefix sorts first.
   */
  predicate StrLess(s: string, t: string)
  {
    if s == [] then t != []
    else if t == [] then false
    else s[0] < t[0] || (s[0] == t[0] && StrLess(s[1..], t[1..]))
  }

  lemma {:induction false} StrLessIrreflexive(s: string)
    ensures !StrLess(s, s)
  {
    if s != [] {
      StrLessIrreflexive(s[1..]);
    }
  }

  lemma {:induction false} StrLessTransitive(s: string, t: string, u: string)
    requires StrLess(s, t) && StrLess(t, u)
    ensures StrLess(s, u)
  {
    if s != [] && t != [] && u != [] && s[0] == t[0] == u[0] {
      StrLessTransitive(s[1..], t[1..], u[1..]);
    }
  }

  /** Any two different strings are ordered one way round. */
  lemma {:induction false} StrLessTotal(s: string, t: string)
    requires s != t
    ensures StrLess(s, t) || StrLess(t, s)
  {
    if s != [] && t != [] && s[0] == t[0] {
      assert s == [s[0]] + s[1..] && t == [t[0]] + t[1..];
      StrLessTotal(s[1..], t[1..]);
    }
  }

  lemma {:induction false} StrLessAsymmetric(s: string, t: string)
    requires StrLess(s, t)
    ensures !StrLess(t, s)
  {
    if s != [] && t != [] && s[0] == t[0] {
      StrLessAsymmetric(s[1..], t[1..]);
    }
  }
}
