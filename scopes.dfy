/**
 * The scope prompt of the configure action: the operator types a
 * comma-separated list of OAuth scopes until one line names only scopes the
 * API's REST discovery document offers, and at least one of them.
 */
module Scopes {
  import opened Php
  import opened Console

  /** The trimmed pieces that are truthy, in order: "" and "0" are dropped. */
  function Kept(pieces: seq<string>): seq<string>
  {
    if pieces == [] then [] else Kept(pieces[..|pieces| - 1]) + KeptPiece(pieces[|pieces| - 1])
  }

  /** One piece: trimmed, and kept only if truthy. */
  function KeptPiece(piece: string): seq<string>
  {
    var t := Trim(piece);
    if Truthy(t) then [t] else []
  }

  /** The tokens one answer contributes before the membership test. */
  function KeptTokens(line: string): seq<string>
  {
    Kept(Explode(',', line))
  }

  /** What one answer to the scope prompt leads to. */
  datatype ScopeLine =
    | Accepted(scopes: seq<string>)  // the prompt is done
    | UnknownScope                   // an error is printed and the prompt repeats
    | NoScope                        // nothing was kept: the prompt repeats silently

  /** Every token is one of the scopes on offer. */
  predicate AllOffered(tokens: seq<string>, available: seq<string>)
  {
    tokens == [] || (tokens[0] in available && AllOffered(tokens[1..], available))
  }

  lemma {:induction false} AllOfferedMeans(tokens: seq<string>, available: seq<string>)
    ensures AllOffered(tokens, available) <==> forall t :: t in tokens ==> t in available
  {
    if tokens != [] {
      AllOfferedMeans(tokens[1..], available);
      assert forall t :: t in tokens <==> t == tokens[0] || t in tokens[1..];
    }
  }

  /** The verdict on one answer, given the scopes on offer. */
  function ParseScopeLine(line: string, available: seq<string>): ScopeLine
  {
    var kept := KeptTokens(line);
    if !AllOffered(kept, available) then UnknownScope
    else if kept == [] then NoScope
    else Accepted(kept)
  }

  lemma {:induction false} KeptAppend(a: seq<string>, b: seq<string>)
    ensures Kept(a + b) == Kept(a) + Kept(b)
  {
    if b != [] {
      var b', x := b[..|b| - 1], b[|b| - 1];
      KeptAppend(a, b');
      assert (a + b)[..|a + b| - 1] == a + b';
      assert (a + b)[|a + b| - 1] == x;
      calc {
        Kept(a + b);
        Kept(a + b') + KeptPiece(x);
        Kept(a) + Kept(b') + KeptPiece(x);
        Kept(a) + Kept(b);
      }
    } else {
      assert a + b == a;
    }
  }

  /** Every kept token is truthy, comma-free and has nothing left to trim. */
  lemma {:induction false} KeptTokensShape(pieces: seq<string>)
    requires forall k :: 0 <= k < |pieces| ==> ',' !in pieces[k]
    ensures forall k :: 0 <= k < |Kept(pieces)| ==>
      Truthy(Kept(pieces)[k]) && ',' !in Kept(pieces)[k] && Trim(Kept(pieces)[k]) == Kept(pieces)[k]
  {
    if pieces != [] {
      var p := pieces[|pieces| - 1];
      KeptTokensShape(pieces[..|pieces| - 1]);
      var t := Trim(p);
      var lo := TrimIsSlice(p);
      assert forall c :: c in t ==> c in p;
      TrimClean(t);
    }
  }

  lemma {:induction false} KeptOfClean(toks: seq<string>)
    requires forall k :: 0 <= k < |toks| ==> Truthy(toks[k]) && Trim(toks[k]) == toks[k]
    ensures Kept(toks) == toks
  {
    if toks != [] {
      var pre, t := toks[..|toks| - 1], toks[|toks| - 1];
      assert forall k :: 0 <= k < |pre| ==> pre[k] == toks[k];
      KeptOfClean(pre);
      assert Truthy(t) && Trim(t) == t;
      assert toks == pre + [t];
    }
  }

  /**
   * Accepted lines are exactly those whose kept tokens are all on offer and
   * not all dropped; the accepted list is those tokens in input order,
   * repeats kept. A single unknown token rejects the whole line.
   */
  lemma ParseScopeLineCases(line: string, available: seq<string>)
    ensures ParseScopeLine(line, available).Accepted? <==>
      KeptTokens(line) != [] && forall t :: t in KeptTokens(line) ==> t in available
    ensures ParseScopeLine(line, available).Accepted? ==>
      ParseScopeLine(line, available).scopes == KeptTokens(line)
    ensures ParseScopeLine(line, available) == UnknownScope <==>
      exists t :: t in KeptTokens(line) && t !in available
    ensures ParseScopeLine(line, available) == NoScope <==> KeptTokens(line) == []
    ensures forall k :: 0 <= k < |KeptTokens(line)| ==>
      Truthy(KeptTokens(line)[k]) && ',' !in KeptTokens(line)[k] && Trim(KeptTokens(line)[k]) == KeptTokens(line)[k]
  {
    KeptTokensShape(Explode(',', line));
    AllOfferedMeans(KeptTokens(line), available);
  }

  /**
   * Typing the wanted scopes joined by commas is accepted with exactly those
   * scopes, provided each is on offer and is a clean token.
   */
  lemma ScopeLineRoundTrip(scopes: seq<string>, available: seq<string>)
    requires scopes != []
    requires forall k :: 0 <= k < |scopes| ==>
      scopes[k] in available && Truthy(scopes[k]) && ',' !in scopes[k] && Trim(scopes[k]) == scopes[k]
    ensures ParseScopeLine(Implode(',', scopes), available) == Accepted(scopes)
  {
    ExplodeImplode(',', scopes);
    KeptOfClean(scopes);
    AllOfferedMeans(scopes, available);
  }

  /** One truthy token that is not on offer rejects the line it came from. */
  lemma UnknownRejectsLine(line: string, available: seq<string>, k: nat)
    requires k < |Explode(',', line)|
    requires Truthy(Trim(Explode(',', line)[k])) && Trim(Explode(',', line)[k]) !in available
    ensures ParseScopeLine(line, available) == UnknownScope
  {
    var inputs := Explode(',', line);
    KeptAppend(inputs[..k + 1], inputs[k + 1..]);
    assert inputs[..k + 1] + inputs[k + 1..] == inputs;
    assert inputs[..k + 1][..k] == inputs[..k];
    assert Trim(inputs[k]) in KeptTokens(line);
    AllOfferedMeans(KeptTokens(line), available);
  }

  /** A line whose kept tokens are all on offer is accepted unless nothing was kept. */
  lemma ScannedLine(line: string, available: seq<string>, scopes: seq<string>)
    requires scopes == KeptTokens(line)
    requires forall t :: t in scopes ==> t in available
    ensures ParseScopeLine(line, available) == if scopes == [] then NoScope else Accepted(scopes)
  {
    AllOfferedMeans(scopes, available);
  }

  /** answers[i] is the first answer the scope prompt accepts. */
  predicate FirstAcceptedAt(available: seq<string>, answers: seq<string>, i: int) {
    && 0 <= i < |answers|
    && ParseScopeLine(answers[i], available).Accepted?
    && forall j :: 0 <= j < i ==> !ParseScopeLine(answers[j], available).Accepted?
  }

  /**
   * One pass of the prompt loop's body over an answer: explode it on ',',
   * trim each piece, skip the falsy ones, and give up on the whole answer at
   * the first token that is not on offer (the source's `continue 2`).
   */
  method ScanAnswer(line: string, available: seq<string>) returns (verdict: ScopeLine)
    ensures verdict == ParseScopeLine(line, available)
  {
    var inputs := Explode(',', line);
    var scopes: seq<string> := [];
    for k := 0 to |inputs|
      invariant scopes == Kept(inputs[..k])
      invariant forall t :: t in scopes ==> t in available
    {
      var input := Trim(inputs[k]);
      assert inputs[..k + 1][..k] == inputs[..k];
      if Truthy(input) {
        if input !in available {
          UnknownRejectsLine(line, available, k);
          return UnknownScope;
        }
        scopes := scopes + [input];
      }
    }
    assert inputs[..|inputs|] == inputs;
    ScannedLine(line, available, scopes);
    verdict := if scopes == [] then NoScope else Accepted(scopes);
  }

  /** The prompt loop over the answers: the scopes of the first accepted one. */
  function ScopePrompt(available: seq<string>, answers: seq<string>): Answer<seq<string>>
  {
    if answers == [] then Exhausted
    else match ParseScopeLine(answers[0], available)
      case Accepted(scopes) => Answered(scopes)
      case _ => ScopePrompt(available, answers[1..])
  }

  /** The prompt runs out only if no answer is accepted. */
  lemma {:induction false} ScopePromptExhausted(available: seq<string>, answers: seq<string>)
    ensures ScopePrompt(available, answers).Exhausted? <==>
      forall j :: 0 <= j < |answers| ==> !ParseScopeLine(answers[j], available).Accepted?
  {
    if answers != [] {
      var rest := answers[1..];
      ScopePromptExhausted(available, rest);
      assert forall j :: 1 <= j < |answers| ==> answers[j] == rest[j - 1];
    }
  }

  /** The prompt ends with the scopes of the first accepted answer. */
  lemma {:induction false} ScopePromptFirstAccepted(available: seq<string>, answers: seq<string>)
    requires ScopePrompt(available, answers).Answered?
    ensures exists i ::
      (FirstAcceptedAt(available, answers, i) &&
       ParseScopeLine(answers[i], available) == Accepted(ScopePrompt(available, answers).value))
  {
    var verdict := ParseScopeLine(answers[0], available);
    if verdict.Accepted? {
      assert FirstAcceptedAt(available, answers, 0);
    } else {
      var rest := answers[1..];
      ScopePromptFirstAccepted(available, rest);
      var i :| FirstAcceptedAt(available, rest, i) &&
        ParseScopeLine(rest[i], available) == Accepted(ScopePrompt(available, rest).value);
      assert answers[i + 1] == rest[i];
      forall j | 0 < j < i + 1 ensures !ParseScopeLine(answers[j], available).Accepted? {
        assert answers[j] == rest[j - 1];
      }
    }
  }

  /** The scope prompt loop: asks until an answer is accepted. */
  method ReadScopes(available: seq<string>, answers: seq<string>) returns (r: Answer<seq<string>>)
    ensures r == ScopePrompt(available, answers)
  {
    var done := false;
    var scopes: seq<string> := [];
    var next := 0;
    while !done
      invariant 0 <= next <= |answers|
      invariant !done ==> ScopePrompt(available, answers) == ScopePrompt(available, answers[next..])
      invariant done ==> ScopePrompt(available, answers) == Answered(scopes)
      decreases |answers| - next, !done
    {
      if next == |answers| {
        return Exhausted;
      }
      var verdict := ScanAnswer(answers[next], available);
      assert answers[next..][1..] == answers[next + 1..];
      next := next + 1;
      if verdict.Accepted? {
        scopes := verdict.scopes;
        done := true;
      }
    }
    r := Answered(scopes);
  }
}
