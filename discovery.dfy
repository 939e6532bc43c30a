/**
 * The API catalogue the console command builds from Google's discovery list:
 * the flat list of items grouped into name -> version -> item, then sorted by
 * name (GoogleController::getApis).
 */
module Discovery {
  import opened PhpArray

  /** One element of the discovery list's `items`, with the fields the command reads. */
  datatype Item = Item(
    id: string,
    name: string,
    version: string,
    title: string,
    preferred: bool,
    discoveryRestUrl: string)

  /** The versions of one API: version -> item, in insertion order. */
  type Versions = Entries<Item>

  /** The grouped list: API name -> its versions. */
  type Catalogue = Entries<Versions>

  /**
   * The versions of API `name`: at least one, pairwise different, and each
   * stored item carries that name and its own version as key.
   */
  ghost predicate VersionsOf(name: string, vs: Versions) {
    && vs != []
    && DistinctKeys(vs)
    && forall w :: HasKey(vs, w) ==> Get(vs, w).name == name && Get(vs, w).version == w
  }

  /** Distinct names, each mapped to well-formed versions. */
  ghost predicate Grouped(g: Catalogue) {
    && DistinctKeys(g)
    && forall n :: HasKey(g, n) ==> VersionsOf(n, Get(g, n))
  }

  /** The shape getApis returns: grouped, with names in ascending order. */
  ghost predicate WellFormed(c: Catalogue) {
    Grouped(c) && KeysAscending(c)
  }

  /** One pass of the loop body: make room for the name, then store the item under its version. */
  function AddItem(g: Catalogue, it: Item): (r: Catalogue)
    ensures Keys(r) == if HasKey(g, it.name) then Keys(g) else Keys(g) + [it.name]
    ensures HasKey(r, it.name)
    ensures Get(r, it.name) == Put(if HasKey(g, it.name) then Get(g, it.name) else [], it.version, it)
    ensures forall m :: m != it.name && HasKey(g, m) ==> Get(r, m) == Get(g, m)
  {
    var g1 := if HasKey(g, it.name) then g else Put(g, it.name, []);
    Put(g1, it.name, Put(Get(g1, it.name), it.version, it))
  }

  /** The grouped list after the loop over `items` (before ksort). */
  function Group(items: seq<Item>): (g: Catalogue)
    ensures Grouped(g)
  {
    if items == [] then []
    else
      var pre := Group(items[..|items| - 1]);
      AddItemGrouped(pre, items[|items| - 1]);
      AddItem(pre, items[|items| - 1])
  }

  lemma AddItemGrouped(g: Catalogue, it: Item)
    requires Grouped(g)
    ensures Grouped(AddItem(g, it))
  {
    var r := AddItem(g, it);
    var g1 := if HasKey(g, it.name) then g else Put(g, it.name, []);
    PutDistinct(g, it.name, []);
    PutDistinct(g1, it.name, Put(Get(g1, it.name), it.version, it));
    var inner := if HasKey(g, it.name) then Get(g, it.name) else [];
    PutDistinct(inner, it.version, it);
    forall n | HasKey(r, n) ensures VersionsOf(n, Get(r, n)) {
      if n == it.name {
        var vs := Get(r, n);
        assert HasKey(vs, it.version);
        forall w | HasKey(vs, w) ensures Get(vs, w).name == n && Get(vs, w).version == w {
          if w != it.version {
            assert HasKey(inner, w);
          }
        }
      } else {
        assert HasKey(g, n);
      }
    }
  }

  /** The catalogue getApis returns for a discovery list: grouped and ksort-ed. */
  function ApiCatalogue(items: seq<Item>): Catalogue
  {
    Ksort(Group(items))
  }

  // ---------------------------------------------------------------------------
  // Reference definitions over the flat list

  /** The names of the items, in list order. */
  function Names(items: seq<Item>): seq<string>
  {
    if items == [] then [] else Names(items[..|items| - 1]) + [items[|items| - 1].name]
  }

  /** The versions of the items named `n`, in list order, repeats kept. */
  function VersionList(items: seq<Item>, n: string): seq<string>
  {
    if items == [] then []
    else
      var last := items[|items| - 1];
      VersionList(items[..|items| - 1], n) + (if last.name == n then [last.version] else [])
  }

  /** The first occurrence of every element, in order of first occurrence. */
  function Dedup(s: seq<string>): (r: seq<string>)
    ensures forall x :: x in r <==> x in s
    ensures forall i, j :: 0 <= i < j < |r| ==> r[i] != r[j]
  {
    if s == [] then []
    else
      var d := Dedup(s[..|s| - 1]);
      assert forall x :: x in s <==> x in s[..|s| - 1] || x == s[|s| - 1];
      if s[|s| - 1] in d then d else d + [s[|s| - 1]]
  }

  /** Item i is named n with version v, and no later item is. */
  predicate IsLastMatch(items: seq<Item>, i: int, n: string, v: string) {
    && 0 <= i < |items|
    && items[i].name == n && items[i].version == v
    && forall j :: i < j < |items| ==> !(items[j].name == n && items[j].version == v)
  }

  lemma {:induction false} NamesHas(items: seq<Item>, n: string)
    ensures n in Names(items) <==> exists i :: 0 <= i < |items| && items[i].name == n
  {
    if items != [] {
      var pre := items[..|items| - 1];
      NamesHas(pre, n);
      if n in Names(pre) {
        var i :| 0 <= i < |pre| && pre[i].name == n;
        assert items[i].name == n;
      }
      if exists i :: 0 <= i < |items| && items[i].name == n {
        var i :| 0 <= i < |items| && items[i].name == n;
        if i < |pre| { assert pre[i].name == n; }
      }
    }
  }

  lemma {:induction false} VersionListHas(items: seq<Item>, n: string, v: string)
    ensures v in VersionList(items, n) <==>
      exists i :: 0 <= i < |items| && items[i].name == n && items[i].version == v
  {
    if items != [] {
      var pre := items[..|items| - 1];
      VersionListHas(pre, n, v);
      if v in VersionList(pre, n) {
        var i :| 0 <= i < |pre| && pre[i].name == n && pre[i].version == v;
        assert items[i] == pre[i];
      }
      if exists i :: 0 <= i < |items| && items[i].name == n && items[i].version == v {
        var i :| 0 <= i < |items| && items[i].name == n && items[i].version == v;
        if i < |pre| { assert pre[i] == items[i]; }
      }
    }
  }

  lemma {:induction false} VersionListEmpty(items: seq<Item>, n: string)
    requires n !in Names(items)
    ensures VersionList(items, n) == []
  {
    if items != [] {
      var pre := items[..|items| - 1];
      assert n !in Names(pre);
      VersionListEmpty(pre, n);
    }
  }

  // ---------------------------------------------------------------------------
  // What the loop builds

  /** The names come out in order of first appearance (before ksort). */
  lemma {:induction false} GroupNameOrder(items: seq<Item>)
    ensures Keys(Group(items)) == Dedup(Names(items))
  {
    if items != [] {
      var pre := items[..|items| - 1];
      GroupNameOrder(pre);
      assert Names(items)[..|Names(items)| - 1] == Names(pre);
    }
  }

  /** The versions of each name come out in order of first appearance. */
  lemma {:induction false} GroupVersionOrder(items: seq<Item>, n: string)
    requires HasKey(Group(items), n)
    ensures Keys(Get(Group(items), n)) == Dedup(VersionList(items, n))
  {
    var pre := items[..|items| - 1];
    var it := items[|items| - 1];
    var vl := VersionList(items, n);
    if it.name != n {
      assert HasKey(Group(pre), n);
      GroupVersionOrder(pre, n);
      assert vl == VersionList(pre, n);
    } else if HasKey(Group(pre), n) {
      GroupVersionOrder(pre, n);
      assert vl[..|vl| - 1] == VersionList(pre, n);
    } else {
      GroupNameOrder(pre);
      VersionListEmpty(pre, n);
      assert vl == [it.version];
      assert vl[..0] == [];
    }
  }

  /** Under each (name, version) sits the last item with that name and version. */
  lemma {:induction false} GroupLastItem(items: seq<Item>, n: string, v: string)
    requires HasKey(Group(items), n) && HasKey(Get(Group(items), n), v)
    ensures exists i :: IsLastMatch(items, i, n, v) && Get(Get(Group(items), n), v) == items[i]
  {
    var pre := items[..|items| - 1];
    var it := items[|items| - 1];
    var g := Group(pre);
    assert Group(items) == AddItem(g, it);
    if it.name == n && it.version == v {
      assert IsLastMatch(items, |items| - 1, n, v);
    } else {
      AddItemKeepsOther(g, it, n, v);
      GroupLastItem(pre, n, v);
      var i :| IsLastMatch(pre, i, n, v) && Get(Get(g, n), v) == pre[i];
      LastMatchExtend(items, i, n, v);
    }
  }

  lemma LastMatchExtend(items: seq<Item>, i: int, n: string, v: string)
    requires items != [] && IsLastMatch(items[..|items| - 1], i, n, v)
    requires !(items[|items| - 1].name == n && items[|items| - 1].version == v)
    ensures IsLastMatch(items, i, n, v) && items[i] == items[..|items| - 1][i]
  {
  }

  /** Adding an item with another (name, version) leaves every other lookup alone. */
  lemma AddItemKeepsOther(g: Catalogue, it: Item, n: string, v: string)
    requires !(it.name == n && it.version == v)
    requires HasKey(AddItem(g, it), n) && HasKey(Get(AddItem(g, it), n), v)
    ensures HasKey(g, n) && HasKey(Get(g, n), v)
    ensures Get(Get(AddItem(g, it), n), v) == Get(Get(g, n), v)
  {
    var r := AddItem(g, it);
    if it.name == n {
      var inner := if HasKey(g, n) then Get(g, n) else [];
      assert Get(r, n) == Put(inner, it.version, it);
      assert HasKey(inner, v);
    } else {
      assert HasKey(g, n);
    }
  }

  // ---------------------------------------------------------------------------
  // What getApis returns

  /** The catalogue is grouped and its names ascend. */
  lemma CatalogueWellFormed(items: seq<Item>)
    ensures WellFormed(ApiCatalogue(items))
  {
    var g := Group(items);
    var c := ApiCatalogue(items);
    forall n | HasKey(c, n) ensures VersionsOf(n, Get(c, n)) {
      KsortLookups(g, n);
    }
    KsortLookups(g, "");
  }

  /** Exactly the names that occur in the discovery list are keys. */
  lemma CatalogueNames(items: seq<Item>, n: string)
    ensures HasKey(ApiCatalogue(items), n) <==> exists i :: 0 <= i < |items| && items[i].name == n
  {
    KsortLookups(Group(items), n);
    GroupNameOrder(items);
    NamesHas(items, n);
  }

  /**
   * The versions under name n are exactly the versions the list gives for n,
   * in order of first appearance.
   */
  lemma CatalogueVersions(items: seq<Item>, n: string, v: string)
    requires HasKey(ApiCatalogue(items), n)
    ensures Keys(Get(ApiCatalogue(items), n)) == Dedup(VersionList(items, n))
    ensures HasKey(Get(ApiCatalogue(items), n), v) <==>
      exists i :: 0 <= i < |items| && items[i].name == n && items[i].version == v
  {
    KsortLookups(Group(items), n);
    GroupVersionOrder(items, n);
    VersionListHas(items, n, v);
  }

  /** A later item with the same name and version replaces an earlier one. */
  lemma CatalogueLastItem(items: seq<Item>, n: string, v: string)
    requires HasKey(ApiCatalogue(items), n) && HasKey(Get(ApiCatalogue(items), n), v)
    ensures exists i :: IsLastMatch(items, i, n, v) && Get(Get(ApiCatalogue(items), n), v) == items[i]
  {
    KsortLookups(Group(items), n);
    GroupLastItem(items, n, v);
  }

  /** The catalogue is empty exactly when the discovery list is. */
  lemma CatalogueEmpty(items: seq<Item>)
    ensures ApiCatalogue(items) == [] <==> items == []
  {
    if items != [] {
      CatalogueNames(items, items[0].name);
    }
  }
}
