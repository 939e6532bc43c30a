/**
 * The `google` console command: the API menu, the listing, the version
 * choice, the credentials file name, the configure flow that strings them
 * together, and the controller object that caches the grouped catalogue.
 */
module Commands {
  import opened Php
  import opened PhpArray
  import opened Console
  import opened Discovery
  import opened Scopes
  import opened Uuid

  /** Where access tokens go, before alias resolution. */
  const DefaultConfigPath := "@runtime/google-apiclient/"

  /** Where the OAuth client secret is looked for, before alias resolution. */
  const DefaultClientSecretPath := "@runtime/google-apiclient/secret.json"

  // ---------------------------------------------------------------------
  // The API menu
  // ---------------------------------------------------------------------

  /** The option an API contributes: its id and its first version's title, if it has versions. */
  function MenuEntry(api: (string, Versions)): Entries<string>
  {
    if api.1 == [] then [] else [(api.0, api.1[0].1.title)]
  }

  /** The options of the API menu, in catalogue order. */
  function Menu(apis: Catalogue): Entries<string>
  {
    if apis == [] then [] else Menu(apis[..|apis| - 1]) + MenuEntry(apis[|apis| - 1])
  }

  /**
   * Builds the menu by assigning `$options[$id]`; the inner loop of the
   * source stops after the first version. The ids are the keys of a PHP
   * array, hence pairwise different, so every assignment appends.
   */
  method MenuOptions(apis: Catalogue) returns (options: Entries<string>)
    requires DistinctKeys(apis)
    ensures options == Menu(apis)
  {
    options := [];
    for i := 0 to |apis|
      invariant options == Menu(apis[..i])
    {
      var id, versions := apis[i].0, apis[i].1;
      assert apis[..i + 1][..i] == apis[..i];
      MenuKeys(apis[..i]);
      assert !HasKey(apis[..i], id) by {
        assert forall j :: 0 <= j < i ==> Keys(apis[..i])[j] == apis[j].0;
      }
      for j := 0 to |versions|
        invariant j == 0 && options == Menu(apis[..i])
      {
        PutAppends(options, id, versions[j].1.title);
        options := Put(options, id, versions[j].1.title);
        break;
      }
    }
    assert apis[..|apis|] == apis;
  }

  /** Every menu key is an API id. */
  lemma {:induction false} MenuKeys(apis: Catalogue)
    ensures forall k :: HasKey(Menu(apis), k) ==> HasKey(apis, k)
  {
    if apis != [] {
      var pre, last := apis[..|apis| - 1], apis[|apis| - 1];
      MenuKeys(pre);
      KeysInit(apis);
      var m, me := Menu(pre), MenuEntry(last);
      assert Menu(apis) == m + me;
      KeysAppend(m, me);
      assert Keys(me) == if last.1 == [] then [] else [last.0];
      forall k | HasKey(Menu(apis), k) ensures HasKey(apis, k) {
        assert k in Keys(m) + Keys(me);
        if k in Keys(m) {
          assert HasKey(m, k);
          assert k in Keys(pre);
        }
        assert k in Keys(pre) + [last.0];
      }
    }
  }

  /** One option per API id, in catalogue order, titled from its first version. */
  lemma {:induction false} MenuOneOptionPerApi(apis: Catalogue)
    requires forall k :: 0 <= k < |apis| ==> apis[k].1 != []
    ensures |Menu(apis)| == |apis|
    ensures forall k :: 0 <= k < |apis| ==> Menu(apis)[k] == (apis[k].0, apis[k].1[0].1.title)
  {
    if apis != [] {
      var pre := apis[..|apis| - 1];
      assert forall k :: 0 <= k < |pre| ==> pre[k] == apis[k];
      MenuOneOptionPerApi(pre);
    }
  }

  /** Index form of a grouped catalogue: each entry holds versions of its own name. */
  lemma GroupedAt(c: Catalogue, k: nat)
    requires Grouped(c) && k < |c|
    ensures c[k].1 != [] && c[k].1[0].1.name == c[k].0
  {
    GetAt(c, k);
    assert VersionsOf(c[k].0, c[k].1);
    GetAt(c[k].1, 0);
  }

  /** Index form of a grouped catalogue, for all entries at once. */
  lemma GroupedNonEmpty(c: Catalogue)
    requires Grouped(c)
    ensures forall k :: 0 <= k < |c| ==> c[k].1 != [] && c[k].1[0].1.name == c[k].0
  {
    forall k | 0 <= k < |c| ensures c[k].1 != [] && c[k].1[0].1.name == c[k].0 {
      GroupedAt(c, k);
    }
  }

  /** On a grouped catalogue the menu offers exactly the API ids. */
  lemma MenuOfCatalogue(apis: Catalogue)
    requires Grouped(apis)
    ensures Keys(Menu(apis)) == Keys(apis)
    ensures forall k :: 0 <= k < |apis| ==> apis[k].1 != [] && Menu(apis)[k] == (apis[k].0, apis[k].1[0].1.title)
  {
    GroupedNonEmpty(apis);
    MenuOneOptionPerApi(apis);
    var km, ka := Keys(Menu(apis)), Keys(apis);
    assert |km| == |ka|;
    forall k | 0 <= k < |apis| ensures km[k] == ka[k] {
      assert Menu(apis)[k].0 == apis[k].0;
    }
  }

  // ---------------------------------------------------------------------
  // The listing
  // ---------------------------------------------------------------------

  /** One printed line: a label, a dash, a title. */
  function ApiLine(tag: string, title: string): string
  {
    tag + " - " + title + "\n"
  }

  /** One line per version, labelled with the item's id. */
  function VersionLines(versions: Versions): seq<string>
  {
    if versions == [] then []
    else
      var last := versions[|versions| - 1].1;
      VersionLines(versions[..|versions| - 1]) + [ApiLine(last.id, last.title)]
  }

  /** What one API contributes: all its versions, or only the first, labelled by name. */
  function ApiListing(versions: Versions, showAllVersions: bool): seq<string>
  {
    if versions == [] then []
    else if showAllVersions then VersionLines(versions)
    else [ApiLine(versions[0].1.name, versions[0].1.title)]
  }

  /** The whole listing, API by API. */
  function Listing(apis: Catalogue, showAllVersions: bool): seq<string>
  {
    if apis == [] then []
    else Listing(apis[..|apis| - 1], showAllVersions) + ApiListing(apis[|apis| - 1].1, showAllVersions)
  }

  /** The loops of actionList, with the printed lines collected in order. */
  method ListApis(apis: Catalogue, showAllVersions: bool) returns (lines: seq<string>)
    ensures lines == Listing(apis, showAllVersions)
  {
    lines := [];
    for i := 0 to |apis|
      invariant lines == Listing(apis[..i], showAllVersions)
    {
      var versions := apis[i].1;
      assert apis[..i + 1][..i] == apis[..i];
      ghost var before := lines;
      for j := 0 to |versions|
        invariant showAllVersions ==> lines == before + VersionLines(versions[..j])
        invariant !showAllVersions ==> j == 0 && lines == before
      {
        var api := versions[j].1;
        if !showAllVersions {
          lines := lines + [ApiLine(api.name, api.title)];
          break;
        }
        assert versions[..j + 1][..j] == versions[..j];
        lines := lines + [ApiLine(api.id, api.title)];
      }
      assert versions[..|versions|] == versions;
    }
    assert apis[..|apis|] == apis;
  }

  /** The version lines are the versions, one each, in order. */
  lemma {:induction false} VersionLinesEach(versions: Versions)
    ensures |VersionLines(versions)| == |versions|
    ensures forall j :: 0 <= j < |versions| ==>
      VersionLines(versions)[j] == ApiLine(versions[j].1.id, versions[j].1.title)
  {
    if versions != [] {
      VersionLinesEach(versions[..|versions| - 1]);
    }
  }

  /** Without showAllVersions: one line per API, from its first version. */
  lemma {:induction false} ListingOneLinePerApi(apis: Catalogue)
    requires forall k :: 0 <= k < |apis| ==> apis[k].1 != []
    ensures |Listing(apis, false)| == |apis|
    ensures forall k :: 0 <= k < |apis| ==>
      Listing(apis, false)[k] == ApiLine(apis[k].1[0].1.name, apis[k].1[0].1.title)
  {
    if apis != [] {
      ListingOneLinePerApi(apis[..|apis| - 1]);
    }
  }

  /** The number of versions in a catalogue. */
  function VersionCount(apis: Catalogue): nat
  {
    if apis == [] then 0 else VersionCount(apis[..|apis| - 1]) + |apis[|apis| - 1].1|
  }

  /** With showAllVersions: one line per version. */
  lemma {:induction false} ListingAllVersions(apis: Catalogue)
    ensures |Listing(apis, true)| == VersionCount(apis)
  {
    if apis != [] {
      ListingAllVersions(apis[..|apis| - 1]);
      VersionLinesEach(apis[|apis| - 1].1);
    }
  }

  /** On a grouped catalogue the short listing names each API by its key. */
  lemma ListingOfCatalogue(apis: Catalogue)
    requires Grouped(apis)
    ensures |Listing(apis, false)| == |apis|
    ensures forall k :: 0 <= k < |apis| ==>
      apis[k].1 != [] && Listing(apis, false)[k] == ApiLine(apis[k].0, apis[k].1[0].1.title)
  {
    GroupedNonEmpty(apis);
    ListingOneLinePerApi(apis);
  }

  // ---------------------------------------------------------------------
  // The version choice
  // ---------------------------------------------------------------------

  /** The version of the last preferred item, or none. */
  function LastPreferred(versions: Versions): Option<string>
  {
    if versions == [] then None
    else if versions[|versions| - 1].1.preferred then Some(versions[|versions| - 1].1.version)
    else LastPreferred(versions[..|versions| - 1])
  }

  /** versions[k] is preferred and no later one is. */
  predicate IsLastPreferred(versions: Versions, k: int) {
    && 0 <= k < |versions|
    && versions[k].1.preferred
    && forall j :: k < j < |versions| ==> !versions[j].1.preferred
  }

  lemma {:induction false} LastPreferredNone(versions: Versions)
    ensures LastPreferred(versions).None? <==> forall k :: 0 <= k < |versions| ==> !versions[k].1.preferred
  {
    if versions != [] {
      LastPreferredNone(versions[..|versions| - 1]);
    }
  }

  lemma {:induction false} LastPreferredSome(versions: Versions)
    requires LastPreferred(versions).Some?
    ensures exists k :: IsLastPreferred(versions, k) && versions[k].1.version == LastPreferred(versions).value
  {
    var n := |versions| - 1;
    if versions[n].1.preferred {
      assert IsLastPreferred(versions, n);
    } else {
      var pre := versions[..n];
      LastPreferredSome(pre);
      var k :| IsLastPreferred(pre, k) && pre[k].1.version == LastPreferred(pre).value;
      assert IsLastPreferred(versions, k);
    }
  }

  /**
   * The version the configure action settles on: the sole key of a
   * single-version API; with several, the last preferred item's version when
   * the operator's answer to "install preferred?" is truthy, else the key the
   * operator picks. None stands for the source's `false`.
   */
  function ChosenVersion(versions: Versions, installPreferred: string, versionPicks: seq<string>): Answer<Option<string>>
  {
    if |versions| > 1 then
      if Truthy(installPreferred) then Answered(LastPreferred(versions))
      else match Select(Keys(versions), versionPicks)
        case Answered(v) => Answered(Some(v))
        case Exhausted => Exhausted
    else if versions == [] then Answered(None)
    else Answered(Some(versions[0].0))
  }

  /** The version prompt, with the preferred item found by a loop. */
  method SelectVersion(versions: Versions, installPreferred: string, versionPicks: seq<string>)
    returns (version: Answer<Option<string>>)
    ensures version == ChosenVersion(versions, installPreferred, versionPicks)
  {
    if |versions| > 1 {
      if Truthy(installPreferred) {
        var v: Option<string> := None;
        for i := 0 to |versions|
          invariant v == LastPreferred(versions[..i])
        {
          assert versions[..i + 1][..i] == versions[..i];
          if versions[i].1.preferred {
            v := Some(versions[i].1.version);
          }
        }
        assert versions[..|versions|] == versions;
        version := Answered(v);
      } else {
        // the options are version => version, so the pick is a key
        var pick := Select(Keys(versions), versionPicks);
        version := if pick.Answered? then Answered(Some(pick.value)) else Exhausted;
      }
    } else {
      version := Answered(if versions == [] then None else Some(versions[0].0));
    }
  }

  /**
   * A single-version API selects its sole key. With several versions and
   * "install preferred" answered truthily, the choice is the version of the
   * last preferred item, and nothing exactly when no item is preferred.
   * Otherwise the choice is a key the operator typed.
   */
  lemma ChosenVersionCases(versions: Versions, installPreferred: string, versionPicks: seq<string>)
    ensures |versions| == 1 ==> ChosenVersion(versions, installPreferred, versionPicks) == Answered(Some(Keys(versions)[0]))
    ensures |versions| > 1 && Truthy(installPreferred) ==>
      && ChosenVersion(versions, installPreferred, versionPicks).Answered?
      && (ChosenVersion(versions, installPreferred, versionPicks).value.None? <==>
          forall k :: 0 <= k < |versions| ==> !versions[k].1.preferred)
    ensures |versions| > 1 && Truthy(installPreferred) && ChosenVersion(versions, installPreferred, versionPicks).value.Some? ==>
      exists k :: IsLastPreferred(versions, k) &&
        versions[k].1.version == ChosenVersion(versions, installPreferred, versionPicks).value.value
    ensures |versions| > 1 && !Truthy(installPreferred) ==>
      (ChosenVersion(versions, installPreferred, versionPicks).Exhausted? <==>
       forall j :: 0 <= j < |versionPicks| ==> versionPicks[j] !in Keys(versions))
    ensures |versions| > 1 && !Truthy(installPreferred) && ChosenVersion(versions, installPreferred, versionPicks).Answered? ==>
      exists i :: FirstKeyAt(Keys(versions), versionPicks, i) &&
        ChosenVersion(versions, installPreferred, versionPicks).value == Some(versionPicks[i])
  {
    LastPreferredNone(versions);
    if |versions| > 1 && Truthy(installPreferred) && LastPreferred(versions).Some? {
      LastPreferredSome(versions);
    }
  }

  /** On an API's own versions every chosen version is one of its keys. */
  lemma ChosenVersionIsKey(name: string, versions: Versions, installPreferred: string, versionPicks: seq<string>)
    requires VersionsOf(name, versions)
    requires ChosenVersion(versions, installPreferred, versionPicks).Answered?
    requires ChosenVersion(versions, installPreferred, versionPicks).value.Some?
    ensures HasKey(versions, ChosenVersion(versions, installPreferred, versionPicks).value.value)
  {
    if |versions| > 1 && Truthy(installPreferred) {
      LastPreferredSome(versions);
      var k :| IsLastPreferred(versions, k) && versions[k].1.version == LastPreferred(versions).value;
      GetAt(versions, k);
    }
  }

  // ---------------------------------------------------------------------
  // The credentials file
  // ---------------------------------------------------------------------

  /** The credentials file of an API: `<dir>/<api>_<uuid>.json`. */
  function CredentialsPath(configDir: string, api: string, uuid: string): string
  {
    configDir + "/" + api + "_" + uuid + ".json"
  }

  /** Reads the API name and the 36-character UUID back out of a credentials path. */
  function SplitCredentialsPath(configDir: string, path: string): Option<(string, string)>
  {
    var prefix := configDir + "/";
    if |path| >= |prefix| + 42 && path[..|prefix|] == prefix && path[|path| - 42] == '_' && path[|path| - 5..] == ".json"
    then Some((path[|prefix|..|path| - 42], path[|path| - 41..|path| - 5]))
    else None
  }

  /** A path built from an API name and a UUID gives both back. */
  lemma CredentialsPathRoundTrip(configDir: string, api: string, uuid: string)
    requires |uuid| == 36
    ensures SplitCredentialsPath(configDir, CredentialsPath(configDir, api, uuid)) == Some((api, uuid))
  {
    var p := CredentialsPath(configDir, api, uuid);
    var n := |configDir| + 1;
    assert p[..n] == configDir + "/";
    assert p[n..|p| - 42] == api;
    assert p[|p| - 42] == '_';
    assert p[|p| - 41..|p| - 5] == uuid;
    assert p[|p| - 5..] == ".json";
  }

  /**
   * A configuration directory that already ends in '/', as the default
   * `@runtime/google-apiclient/` does, puts "//" into the credentials path.
   */
  lemma CredentialsPathDoubleSlash(configDir: string, api: string, uuid: string)
    requires configDir != [] && configDir[|configDir| - 1] == '/'
    ensures var p := CredentialsPath(configDir, api, uuid);
      p[|configDir| - 1..|configDir| + 1] == "//"
  {
    var p := CredentialsPath(configDir, api, uuid);
    assert p[|configDir| - 1] == '/';
    assert p[|configDir|] == '/';
  }

  /** Every path that splits is the credentials path of what it splits into. */
  lemma SplitCredentialsPathSound(configDir: string, path: string)
    requires SplitCredentialsPath(configDir, path).Some?
    ensures |SplitCredentialsPath(configDir, path).value.1| == 36
    ensures path == CredentialsPath(configDir, SplitCredentialsPath(configDir, path).value.0, SplitCredentialsPath(configDir, path).value.1)
  {
    var n := |configDir| + 1;
    var api, uuid := path[n..|path| - 42], path[|path| - 41..|path| - 5];
    assert path == path[..n] + api + [path[|path| - 42]] + uuid + path[|path| - 5..];
  }

  /** The file lives in the configuration directory, is named after the API and ends in ".json". */
  lemma CredentialsPathShape(configDir: string, api: string, uuid: string)
    ensures var p := CredentialsPath(configDir, api, uuid);
      && |p| == |configDir| + |api| + |uuid| + 7
      && p[..|configDir| + 1] == configDir + "/"
      && p[|configDir| + 1..|configDir| + 1 + |api|] == api
      && p[|p| - 5..] == ".json"
  {
    var p := CredentialsPath(configDir, api, uuid);
    assert p[..|configDir| + 1] == configDir + "/";
    assert p[|configDir| + 1..|configDir| + 1 + |api|] == api;
    assert p[|p| - 5..] == ".json";
  }

  // ---------------------------------------------------------------------
  // The configure flow
  // ---------------------------------------------------------------------

  /** What the operator types, prompt by prompt, in order. */
  datatype Answers = Answers(
    apiPicks: seq<string>,        // the API menu
    installPreferred: string,     // "install preferred version?"
    versionPicks: seq<string>,    // the version menu
    scopeLines: seq<string>)      // the scope prompt

  /**
   * What the command learns from outside: alias resolution, whether a file
   * exists, and the scopes a REST discovery document offers (None when it
   * names no OAuth 2.0 scopes).
   */
  datatype Environment = Environment(
    aliasOf: string -> string,
    fileExists: string -> bool,
    scopesAt: string -> Option<seq<string>>)

  /** How actionConfigure ends. */
  datatype Outcome =
    | SecretFileMissing(path: string)       // the missing-secret exception
    | SomethingWentWrong                    // no usable version
    | CredentialsSaved(api: string, version: string, scopes: seq<string>, path: string)
    | AnswersExhausted                      // a prompt would ask again for ever

  /** The API asked for when it is known, otherwise the one picked from the menu. */
  function ChosenApi(apis: Catalogue, api: string, apiPicks: seq<string>): Answer<string>
  {
    if Truthy(api) && HasKey(apis, api) then Answered(api) else Select(Keys(Menu(apis)), apiPicks)
  }

  /** Every chosen API is in the catalogue. */
  lemma ChosenApiIsKey(apis: Catalogue, api: string, apiPicks: seq<string>)
    ensures ChosenApi(apis, api, apiPicks).Answered? ==> HasKey(apis, ChosenApi(apis, api, apiPicks).value)
  {
    MenuKeys(apis);
  }

  /** The scopes to request: none if none are offered, else those of the scope prompt. */
  function RequestedScopes(offered: Option<seq<string>>, scopeLines: seq<string>): Answer<seq<string>>
  {
    if offered.None? then Answered([]) else ScopePrompt(offered.value, scopeLines)
  }

  /** The whole configure action on a catalogue, answers and random draws. */
  function Configure(apis: Catalogue, env: Environment, configPath: string, secretPath: string,
                     api: string, answers: Answers, draws: seq<int>): Outcome
    requires WellFormed(apis) && DrawsInRange(draws)
  {
    var secret := env.aliasOf(secretPath);
    if !env.fileExists(secret) then SecretFileMissing(secret)
    else
      ChosenApiIsKey(apis, api, answers.apiPicks);
      match ChosenApi(apis, api, answers.apiPicks)
      case Exhausted => AnswersExhausted
      case Answered(a) => ConfigureApi(apis, a, env, configPath, answers, draws)
  }

  /** The configure action once the API is settled: version, scopes, credentials file. */
  function ConfigureApi(apis: Catalogue, a: string, env: Environment, configPath: string,
                        answers: Answers, draws: seq<int>): Outcome
    requires WellFormed(apis) && HasKey(apis, a) && DrawsInRange(draws)
  {
    var versions := Get(apis, a);
    var chosen := ChosenVersion(versions, answers.installPreferred, answers.versionPicks);
    if chosen.Exhausted? then AnswersExhausted
    else if chosen.value.None? || !Truthy(chosen.value.value) then SomethingWentWrong
    else
      ChosenVersionIsKey(a, versions, answers.installPreferred, answers.versionPicks);
      var v := chosen.value.value;
      var offered := env.scopesAt(Get(versions, v).discoveryRestUrl);
      var scopes := RequestedScopes(offered, answers.scopeLines);
      if scopes.Exhausted? then AnswersExhausted
      else CredentialsSaved(a, v, scopes.value, CredentialsPath(env.aliasOf(configPath), a, GetUuid(draws)))
  }

  /** Settles the API: the one asked for if it is known, else a pick from the menu. */
  method PickApi(apis: Catalogue, api: string, apiPicks: seq<string>) returns (r: Answer<string>)
    requires DistinctKeys(apis)
    ensures r == ChosenApi(apis, api, apiPicks)
  {
    if Truthy(api) && HasKey(apis, api) {
      return Answered(api);
    }
    var options := MenuOptions(apis);
    r := Select(Keys(options), apiPicks);
  }

  /** The rest of actionConfigure once the API is settled: version, scopes, credentials path. */
  method ConfigureVersion(apis: Catalogue, a: string, env: Environment, configPath: string,
                          answers: Answers, draws: seq<int>) returns (outcome: Outcome)
    requires WellFormed(apis) && HasKey(apis, a) && DrawsInRange(draws)
    ensures outcome == ConfigureApi(apis, a, env, configPath, answers, draws)
  {
    var versions := Get(apis, a);
    var version := SelectVersion(versions, answers.installPreferred, answers.versionPicks);
    if version.Exhausted? {
      return AnswersExhausted;
    }
    if version.value.Some? && Truthy(version.value.value) {
      ChosenVersionIsKey(a, versions, answers.installPreferred, answers.versionPicks);
      var v := version.value.value;
      var offered := env.scopesAt(Get(versions, v).discoveryRestUrl);
      var scopes: seq<string> := [];
      if offered.Some? {
        var read := ReadScopes(offered.value, answers.scopeLines);
        if read.Exhausted? {
          return AnswersExhausted;
        }
        scopes := read.value;
      }
      outcome := CredentialsSaved(a, v, scopes, CredentialsPath(env.aliasOf(configPath), a, GetUuid(draws)));
    } else {
      outcome := SomethingWentWrong;
    }
  }

  /**
   * Saved credentials are for a catalogued API, a truthy version of it, and
   * the accepted scopes (none when none are offered); the file is
   * `<dir>/<api>_<uuid>.json` with a version-4 UUID.
   */
  lemma ConfigureSaved(apis: Catalogue, env: Environment, configPath: string, secretPath: string,
                       api: string, answers: Answers, draws: seq<int>)
    requires WellFormed(apis) && DrawsInRange(draws)
    requires Configure(apis, env, configPath, secretPath, api, answers, draws).CredentialsSaved?
    ensures var o := Configure(apis, env, configPath, secretPath, api, answers, draws);
      && HasKey(apis, o.api)
      && (Truthy(api) && HasKey(apis, api) ==> o.api == api)
      && HasKey(Get(apis, o.api), o.version)
      && Get(Get(apis, o.api), o.version).name == o.api
      && Truthy(o.version)
      && o.path == CredentialsPath(env.aliasOf(configPath), o.api, GetUuid(draws))
      && SplitCredentialsPath(env.aliasOf(configPath), o.path) == Some((o.api, GetUuid(draws)))
      && UuidShaped(GetUuid(draws))
  {
    var o := Configure(apis, env, configPath, secretPath, api, answers, draws);
    ChosenApiIsKey(apis, api, answers.apiPicks);
    ChosenVersionIsKey(o.api, Get(apis, o.api), answers.installPreferred, answers.versionPicks);
    UuidLayout(draws);
    CredentialsPathRoundTrip(env.aliasOf(configPath), o.api, GetUuid(draws));
  }

  /** The scopes of saved credentials: none if none are offered, else an accepted line's. */
  lemma ConfigureSavedScopes(apis: Catalogue, env: Environment, configPath: string, secretPath: string,
                             api: string, answers: Answers, draws: seq<int>)
    requires WellFormed(apis) && DrawsInRange(draws)
    requires Configure(apis, env, configPath, secretPath, api, answers, draws).CredentialsSaved?
    ensures var o := Configure(apis, env, configPath, secretPath, api, answers, draws);
      && HasKey(apis, o.api) && HasKey(Get(apis, o.api), o.version)
      && var offered := env.scopesAt(Get(Get(apis, o.api), o.version).discoveryRestUrl);
         && (offered.None? ==> o.scopes == [])
         && (offered.Some? ==> exists i ::
               (FirstAcceptedAt(offered.value, answers.scopeLines, i) &&
                ParseScopeLine(answers.scopeLines[i], offered.value) == Accepted(o.scopes)))
  {
    var o := Configure(apis, env, configPath, secretPath, api, answers, draws);
    ChosenApiIsKey(apis, api, answers.apiPicks);
    ChosenVersionIsKey(o.api, Get(apis, o.api), answers.installPreferred, answers.versionPicks);
    var offered := env.scopesAt(Get(Get(apis, o.api), o.version).discoveryRestUrl);
    if offered.Some? {
      ScopePromptFirstAccepted(offered.value, answers.scopeLines);
    }
  }

  /**
   * The error branch is taken exactly when a version was settled on but it
   * is `false` or a falsy key; no credentials are written then.
   */
  lemma ConfigureWentWrong(apis: Catalogue, env: Environment, configPath: string, secretPath: string,
                           api: string, answers: Answers, draws: seq<int>)
    requires WellFormed(apis) && DrawsInRange(draws)
    ensures Configure(apis, env, configPath, secretPath, api, answers, draws) == SomethingWentWrong <==>
      && env.fileExists(env.aliasOf(secretPath))
      && ChosenApi(apis, api, answers.apiPicks).Answered?
      && HasKey(apis, ChosenApi(apis, api, answers.apiPicks).value)
      && var chosen := ChosenVersion(Get(apis, ChosenApi(apis, api, answers.apiPicks).value),
                                     answers.installPreferred, answers.versionPicks);
         chosen.Answered? && (chosen.value.None? || !Truthy(chosen.value.value))
  {
    ChosenApiIsKey(apis, api, answers.apiPicks);
  }

  /**
   * With several versions and the preferred one asked for, the action goes
   * wrong when no item is marked preferred.
   */
  lemma ConfigureNoPreferred(apis: Catalogue, env: Environment, configPath: string, secretPath: string,
                             api: string, answers: Answers, draws: seq<int>)
    requires WellFormed(apis) && DrawsInRange(draws)
    requires env.fileExists(env.aliasOf(secretPath))
    requires Truthy(api) && HasKey(apis, api)
    requires |Get(apis, api)| > 1 && Truthy(answers.installPreferred)
    requires forall k :: 0 <= k < |Get(apis, api)| ==> !Get(apis, api)[k].1.preferred
    ensures Configure(apis, env, configPath, secretPath, api, answers, draws) == SomethingWentWrong
  {
    LastPreferredNone(Get(apis, api));
  }

  // ---------------------------------------------------------------------
  // The controller
  // ---------------------------------------------------------------------

  /** The body of getApis's loop: make room for the name, then store the item under its version. */
  method StoreItem(grouped: Catalogue, item: Item) returns (r: Catalogue)
    ensures r == AddItem(grouped, item)
  {
    r := grouped;
    if !HasKey(r, item.name) {
      r := Put(r, item.name, []);
    }
    r := Put(r, item.name, Put(Get(r, item.name), item.version, item));
  }

  /** getApis's loop over the discovery items. */
  method GroupItems(discovery: seq<Item>) returns (grouped: Catalogue)
    ensures grouped == Group(discovery)
  {
    grouped := [];
    for i := 0 to |discovery|
      invariant grouped == Group(discovery[..i])
    {
      grouped := StoreItem(grouped, discovery[i]);
      GroupPrefix(discovery, i);
    }
    assert discovery[..|discovery|] == discovery;
  }

  /** Growing the prefix of items by one adds one item to its grouping. */
  lemma GroupPrefix(items: seq<Item>, i: nat)
    requires i < |items|
    ensures Group(items[..i + 1]) == AddItem(Group(items[..i]), items[i])
  {
    assert items[..i + 1][..i] == items[..i];
  }

  class GoogleController {
    /** The cache behind getApis; empty until the first fetch. */
    var theApis: Catalogue
    /** The access tokens directory, before alias resolution. */
    var configPath: string
    /** The client secret file; actionConfigure stores its resolved argument here. */
    var clientSecretPath: string

    /** The cache holds a catalogue as getApis builds it. */
    ghost predicate Valid()
      reads this
    {
      WellFormed(theApis)
    }

    constructor ()
      ensures Valid() && theApis == []
      ensures configPath == DefaultConfigPath && clientSecretPath == DefaultClientSecretPath
    {
      theApis := [];
      configPath := DefaultConfigPath;
      clientSecretPath := DefaultClientSecretPath;
    }

    /**
     * getApis: groups the discovery items by name, then version, sorts the
     * names, and caches the result; a non-empty cache is returned as it is.
     */
    method GetApis(discovery: seq<Item>) returns (apis: Catalogue)
      requires Valid()
      modifies this`theApis
      ensures Valid() && theApis == apis
      ensures apis == if old(theApis) == [] then ApiCatalogue(discovery) else old(theApis)
    {
      if theApis == [] {
        var grouped := GroupItems(discovery);
        CatalogueWellFormed(discovery);
        theApis := Ksort(grouped);
        assert theApis == ApiCatalogue(discovery);
      }
      apis := theApis;
    }

    /** actionList: the listing of the (cached) catalogue. */
    method ActionList(discovery: seq<Item>, showAllVersions: bool) returns (lines: seq<string>)
      requires Valid()
      modifies this`theApis
      ensures Valid()
      ensures theApis == if old(theApis) == [] then ApiCatalogue(discovery) else old(theApis)
      ensures lines == Listing(theApis, showAllVersions)
    {
      var apis := GetApis(discovery);
      lines := ListApis(apis, showAllVersions);
    }

    /**
     * actionConfigure: checks the client secret, settles the API, the
     * version and the scopes, and names the credentials file.
     */
    method ActionConfigure(env: Environment, secretPath: string, api: string, answers: Answers,
                           discovery: seq<Item>, draws: seq<int>) returns (outcome: Outcome)
      requires Valid() && DrawsInRange(draws)
      modifies this
      ensures Valid() && configPath == old(configPath)
      ensures clientSecretPath == env.aliasOf(secretPath)
      ensures theApis == if old(theApis) == [] && env.fileExists(env.aliasOf(secretPath))
        then ApiCatalogue(discovery) else old(theApis)
      ensures outcome == Configure(theApis, env, configPath, secretPath, api, answers, draws)
    {
      clientSecretPath := env.aliasOf(secretPath);
      if !env.fileExists(clientSecretPath) {
        return SecretFileMissing(clientSecretPath);
      }
      var apis := GetApis(discovery);
      var chosen := PickApi(apis, api, answers.apiPicks);
      ChosenApiIsKey(apis, api, answers.apiPicks);
      if chosen.Exhausted? {
        return AnswersExhausted;
      }
      outcome := ConfigureVersion(apis, chosen.value, env, configPath, answers, draws);
    }
  }
}
