# yii2-google-apiclient: the `google` console command, modelled in Dafny

`commands/GoogleController.php` is a Yii 2 console controller. It sets up
credentials for one Google API.

- `getApis` fetches Google's API discovery list. It groups the items by API
  name, then by version, sorts the names with `ksort`, and caches the result
  in the private field `theApis`.
- `actionList` prints one line per API, or one line per version.
- `actionConfigure` runs in five steps:
  1. Checks that the OAuth client secret exists.
  2. Settles the API: the one asked for if it is known, otherwise a pick from
     a menu.
  3. Settles the version: the sole one, the last preferred one, or a pick.
  4. If the API's REST discovery document offers OAuth scopes, asks for
     scopes until a line names only offered scopes, and at least one of them.
     Otherwise no scopes are requested.
  5. Names the credentials file `<configPath>/<api>_<uuid>.json` after a
     random version-4 UUID (section 4.4 of RFC 4122).

The model has seven modules, one per file.

- `Php` (`php.dfy`): the PHP built-ins the command relies on.
  - Truthiness of strings: `""` and `"0"` are false.
  - `trim()` with its default character list `" \t\n\r\0\x0B"`.
  - `explode`/`implode` on a one-character separator.
  - The `strcmp` order that `ksort` applies to non-numeric string keys.
- `PhpArray` (`phparray.dfy`): a PHP array with string keys, as the sequence
  of its (key, value) entries in insertion order. It covers `array_keys`,
  `isset`, lookup, assignment (which overwrites in place or appends) and
  `ksort`.
- `Console` (`console.dfy`): `select()`. The operator's answers are a finite
  sequence; a prompt that would ask again for ever ends as `Exhausted`.
- `Discovery` (`discovery.dfy`):
  - The discovery item.
  - The grouping loop of `getApis`, with its reference definitions: the item
    names and versions in order, and the last matching item.
  - The lemmas about the sorted catalogue.
- `Scopes` (`scopes.dfy`): the scope prompt. `ScanAnswer` is the inner loop with
  its `continue 2`. `ReadScopes` is the outer `while (!$done)` loop.
- `Uuid` (`uuid.dfy`): `getUuid`. It has the eight `mt_rand` fields, the
  `| 0x4000` and `| 0x8000` masks (a bitwise or on naturals), the `%04x`
  formatting, and the parse back.
- `Commands` (`googlecontroller.dfy`):
  - The menu, the listing and the version choice.
  - The credentials path and its inverse.
  - The whole configure flow as the function `Configure`.
  - Class `GoogleController`, with `theApis`, `configPath` and
    `clientSecretPath` as fields; `GetApis`, `ActionList` and
    `ActionConfigure` are its methods.

Every loop the model covers is a method with loop invariants, proved equal to
a specification function; the properties are lemmas about those functions.
Three loops of the source are not methods:

- The loop that collects `$versions[$version] = $version` (lines 90-92) builds
  an identity map whose keys are the API's versions. `Commands.SelectVersion`
  hands `Keys(versions)` to `Select` directly.
- The loop that collects the offered scopes (lines 110-113) is replaced by
  `Environment.scopesAt`, the list of scope names read from the discovery
  document.
- The verification-code loop of `generateCredentialsFile` (lines 211-221) is
  left out with the rest of the OAuth exchange.

Things the code does that the model makes visible:

- "Install preferred version?" is a `prompt()`, not a `confirm()`, and its
  answer is tested for truthiness. Any answer but `""` and `"0"` takes the
  preferred branch, including `"no"`. That answer is `installPreferred` in
  `Commands.ChosenVersion`.
- The preferred branch keeps the LAST preferred item. When none is preferred,
  the result is `false` and the action prints "Something went terribly wrong"
  (`Commands.ConfigureNoPreferred`).
- The default `configPath`, `@runtime/google-apiclient/`, ends in `/`, and the
  path adds another `/` after it. `Commands.CredentialsPathDoubleSlash` shows
  that a resolved directory ending in `/` puts `//` into the credentials path.
  Whether the alias keeps the trailing `/` is up to `Yii::getAlias`, which is a
  parameter here.
- An empty discovery list is never cached: `empty($this->theApis)` stays true,
  so every later access fetches again (`Discovery.CatalogueEmpty` with the
  ensures of `Commands.GoogleController.GetApis`).
- The short listing prints `name`; the full listing prints `id`.

## Model

| member | source | states |
|---|---|---|
| Php.TrimIsSlice | commands/GoogleController.php:121 | trim() yields a contiguous slice of its input. Every character outside the slice is in trim's default list. The result neither starts nor ends with such a character. |
| Php.TrimClean | commands/GoogleController.php:121 | A string with no trimmable character at either end is its own trim(), so trimming is idempotent. |
| Php.Explode | commands/GoogleController.php:117 | explode(',') gives at least one piece. No piece contains the separator. Imploding the pieces gives back the input. |
| Php.ExplodeImplode | commands/GoogleController.php:117 | explode() undoes implode() on a non-empty list of pieces free of the separator. |
| Php.ExplodeNoSep | commands/GoogleController.php:117 | A line without a comma explodes into itself alone. |
| Php.StrLessIrreflexive | commands/GoogleController.php:182 | No key sorts before itself under strcmp order. |
| Php.StrLessTransitive | commands/GoogleController.php:182 | The strcmp order used by ksort is transitive. |
| Php.StrLessTotal | commands/GoogleController.php:182 | Of two different keys, one sorts before the other. |
| Php.StrLessAsymmetric | commands/GoogleController.php:182 | Two keys never sort before each other. |
| PhpArray.Keys | commands/GoogleController.php:96 | array_keys() lists every entry's key, in entry order. |
| PhpArray.KeysAppend | commands/GoogleController.php:73 | The keys of two entry sequences joined are their key lists joined. |
| PhpArray.GetAt | commands/GoogleController.php:101 | With distinct keys, looking up an entry's key gives that entry's value. |
| PhpArray.GetIn | commands/GoogleController.php:101 | The value found under a present key sits in an entry with that key. |
| PhpArray.Put | commands/GoogleController.php:180 | Assigning `$a[k] = v` keeps an existing key in place or appends a new one. Afterwards `$a[k]` is `v`. No other key's value changes. |
| PhpArray.PutAppends | commands/GoogleController.php:73 | Assigning to a key not yet present appends exactly one entry at the end. |
| PhpArray.PutDistinct | commands/GoogleController.php:180 | Assignment keeps the keys pairwise different. |
| PhpArray.InsertProperties | commands/GoogleController.php:182 | Inserting a new key into ascending entries keeps them ascending. It adds exactly that entry and keeps every other. |
| PhpArray.Ksort | commands/GoogleController.php:182 | ksort() leaves the same entries, as many as before, with keys strictly ascending in strcmp order. |
| PhpArray.KsortLookups | commands/GoogleController.php:182 | After ksort() the keys are distinct and ascending, the same keys are present, and every lookup gives the same value. |
| Console.Select | commands/GoogleController.php:77 | select() ends with the first answer that is an option key. It runs out exactly when no answer is a key. |
| Discovery.AddItem | commands/GoogleController.php:177-180 | One loop pass adds the item's name if new and stores the item under its version. Other names keep their versions. |
| Discovery.Group | commands/GoogleController.php:175-181 | The grouped list maps distinct names to non-empty versions. Each stored item carries its name and its own version as key. |
| Discovery.GroupNameOrder | commands/GoogleController.php:176-179 | Before ksort the names appear in order of first occurrence among the items. |
| Discovery.GroupVersionOrder | commands/GoogleController.php:180 | An API's versions appear in order of first occurrence among its items. |
| Discovery.GroupLastItem | commands/GoogleController.php:180 | The item stored under a name and version is the last item with that name and version. |
| Discovery.CatalogueWellFormed | commands/GoogleController.php:170-188 | The catalogue getApis returns is grouped and has strictly ascending names. |
| Discovery.CatalogueNames | commands/GoogleController.php:176-182 | A name is in the catalogue exactly when some item has it. |
| Discovery.CatalogueVersions | commands/GoogleController.php:180-182 | An API's versions are its items' versions in first-occurrence order. A version is present exactly when some item has that name and version. |
| Discovery.CatalogueLastItem | commands/GoogleController.php:180-182 | The catalogue holds the last item for every name and version (last one wins). |
| Discovery.CatalogueEmpty | commands/GoogleController.php:172-185 | The catalogue is empty exactly when there are no items. Together with the ensures of `Commands.GoogleController.GetApis`, which stores that catalogue, the cache then stays empty. |
| Scopes.KeptTokensShape | commands/GoogleController.php:120-128 | Every kept token is truthy, has no comma, and is already trimmed. |
| Scopes.ParseScopeLineCases | commands/GoogleController.php:117-134 | A line is accepted exactly when its kept tokens are non-empty and all offered; the scopes are those tokens in input order, repeats kept. It is rejected as unknown exactly when some kept token is not offered. It is ignored exactly when nothing is kept. |
| Scopes.ScopeLineRoundTrip | commands/GoogleController.php:117-133 | Typing offered, clean scopes joined by commas is accepted with exactly those scopes. |
| Scopes.UnknownRejectsLine | commands/GoogleController.php:122-125 | One truthy token that is not offered rejects the whole line. |
| Scopes.ScanAnswer | commands/GoogleController.php:117-134 | The inner loop, with its early exit, gives the verdict that ParseScopeLine specifies. |
| Scopes.ScopePromptExhausted | commands/GoogleController.php:115-135 | The scope prompt runs out exactly when no answer is accepted. |
| Scopes.ScopePromptFirstAccepted | commands/GoogleController.php:115-135 | The scope prompt ends with the scopes of the first accepted answer. |
| Scopes.ReadScopes | commands/GoogleController.php:115-135 | The `while (!$done)` loop computes ScopePrompt. |
| Uuid.BitOrDisjoint | commands/GoogleController.php:250 | Or-ing a mask above a value's bits adds the mask. |
| Uuid.OrVersion | commands/GoogleController.php:250 | `mt_rand(0, 0x0fff) \| 0x4000` is the draw plus 0x4000. |
| Uuid.OrVariant | commands/GoogleController.php:255 | `mt_rand(0, 0x3fff) \| 0x8000` is the draw plus 0x8000. |
| Uuid.Fields | commands/GoogleController.php:243-258 | There are eight 16-bit fields. All but the version and variant fields are the draws themselves. |
| Uuid.Hex4RoundTrip | commands/GoogleController.php:240 | `%04x` gives four lowercase hex digits that read back as the value. |
| Uuid.UuidLayout | commands/GoogleController.php:240-259 | The UUID has 36 characters, hyphens at 8, 13, 18 and 23, and lowercase hex everywhere else. |
| Uuid.UuidVersionDigit | commands/GoogleController.php:248-250 | Character 14 is '4', the version number. |
| Uuid.UuidVariantDigit | commands/GoogleController.php:252-255 | Character 19 is one of 8, 9, a, b (the variant bits 10). |
| Uuid.UuidRoundTrip | commands/GoogleController.php:239-260 | Parsing the UUID gives back its eight fields: version field = draw + 0x4000, variant field = draw + 0x8000. |
| Uuid.UuidInjective | commands/GoogleController.php:239-260 | Different draws give different UUIDs. |
| Commands.MenuOptions | commands/GoogleController.php:70-76 | The menu loop, assigning `$options[$id]` and stopping after the first version, builds Menu. |
| Commands.MenuKeys | commands/GoogleController.php:70-77 | Every menu option is an API id. |
| Commands.MenuOneOptionPerApi | commands/GoogleController.php:70-76 | When every API has versions: one option per API, in catalogue order, titled from its first version. |
| Commands.MenuOfCatalogue | commands/GoogleController.php:70-77 | On a grouped catalogue the menu's keys are exactly the API ids. Each option is titled from its API's first version. |
| Commands.ListApis | commands/GoogleController.php:151-163 | The nested listing loops, with the `break`, print the lines Listing specifies, in order. |
| Commands.VersionLinesEach | commands/GoogleController.php:158-160 | With all versions shown: one line per version, `id - title`, in order. |
| Commands.ListingOneLinePerApi | commands/GoogleController.php:153-157 | Without showAllVersions: one line per API, `name - title` of its first version. |
| Commands.ListingAllVersions | commands/GoogleController.php:153-161 | With showAllVersions: as many lines as there are versions in all. |
| Commands.ListingOfCatalogue | commands/GoogleController.php:153-157 | On a grouped catalogue the short listing names each API by its key. |
| Commands.LastPreferredNone | commands/GoogleController.php:80-87 | The preferred loop leaves `false` exactly when no item is preferred. |
| Commands.LastPreferredSome | commands/GoogleController.php:83-87 | Otherwise it leaves the version of the last preferred item. |
| Commands.SelectVersion | commands/GoogleController.php:80-97 | The version code, with the preferred loop, computes ChosenVersion. |
| Commands.ChosenVersionCases | commands/GoogleController.php:80-97 | A single-version API selects its sole key. With several versions and a truthy answer, the choice is the last preferred item's version, and `false` exactly when none is preferred. Otherwise it is the first typed answer that is a version key. |
| Commands.ChosenVersionIsKey | commands/GoogleController.php:99-101 | On an API's own versions, every chosen version is one of its keys, so `$this->apis[$api][$version]` exists. |
| Commands.CredentialsPathRoundTrip | commands/GoogleController.php:198 | The API name and a 36-character UUID can be read back from the credentials path. |
| Commands.SplitCredentialsPathSound | commands/GoogleController.php:198 | Every path that splits is the credentials path of its parts, with a 36-character UUID. |
| Commands.CredentialsPathShape | commands/GoogleController.php:198 | The path starts with `<dir>/`, then holds the API name, and ends in ".json". |
| Commands.CredentialsPathDoubleSlash | commands/GoogleController.php:198 | A directory that ends in `/` yields `//` at the join. |
| Commands.ChosenApiIsKey | commands/GoogleController.php:65-78 | The API settled on is always in the catalogue. |
| Commands.PickApi | commands/GoogleController.php:65-78 | The known API asked for is kept; otherwise the menu pick is taken. |
| Commands.ConfigureVersion | commands/GoogleController.php:80-143 | From the version choice on, the action computes ConfigureApi. |
| Commands.ConfigureSaved | commands/GoogleController.php:57-198 | Saved credentials are for a catalogued API and a truthy version of it; an asked-for known API is kept. The file is `<dir>/<api>_<uuid>.json` with a well-formed UUID that can be read back. |
| Commands.ConfigureSavedScopes | commands/GoogleController.php:103-138 | Without offered scopes, none are requested. Otherwise the scopes are those of the first accepted scope line. |
| Commands.ConfigureWentWrong | commands/GoogleController.php:99-143 | The error branch is taken exactly when the secret exists, an API is settled, and the settled version is `false` or falsy. No credentials are written then. |
| Commands.ConfigureNoPreferred | commands/GoogleController.php:81-142 | With several versions, a truthy "install preferred" answer and no preferred item, the action goes wrong. |
| Commands.GroupItems | commands/GoogleController.php:175-181 | The `foreach` over the items, one StoreItem step per item, builds Group of the whole list. |
| Commands.StoreItem | commands/GoogleController.php:177-180 | The loop body: `isset` check, then nested assignment, is one AddItem step. |
| Commands.GoogleController.constructor | commands/GoogleController.php:29-39 | The field defaults: empty cache, `@runtime/google-apiclient/`, `@runtime/google-apiclient/secret.json`. |
| Commands.GoogleController.GetApis | commands/GoogleController.php:170-188 | A non-empty cache is returned unchanged. Otherwise the sorted grouping of the items is computed and stored, and the cache stays well formed. |
| Commands.GoogleController.ActionList | commands/GoogleController.php:151-163 | Prints Listing of the cached catalogue. |
| Commands.GoogleController.ActionConfigure | commands/GoogleController.php:57-144 | Stores the resolved secret path and fetches the catalogue only once the secret exists. Ends as Configure specifies. |

## Left out

- HTTP and JSON: `file_get_contents` of the discovery list (line 173) and of a REST discovery document (line 103), and `Json::decode`. The discovery items are a parameter. The scopes a document offers (`$response->auth->oauth2->scopes`) come from `Environment.scopesAt`. Failed fetches and decode errors are not modelled.
- Console.Select: Yii's `select()` answers `?` with help and never returns it. The model would accept `?` if it were an option key. No Google API id or version is `?`.
- Console output: the messages on lines 67, 108, 112, 124, 139 and 142, and the option lists that `select()` prints or shows for `?`. Only what is read and what the action ends with are modelled.
- `actionIndex` (lines 45-48): it only runs the help command.
- `generateCredentialsFile` beyond its path (lines 200-228): the `Google_Client` set-up, the authorization URL, the verification-code loop and the token exchange are a foreign library. Creating the directory and writing the file are file I/O.
- `Yii::getAlias` and `file_exists` are `Environment.aliasOf` and `Environment.fileExists`. The missing-secret exception (line 62) is the outcome `SecretFileMissing`.
- `mt_rand` is the parameter `draws`. It holds the eight values with the ranges `mt_rand` guarantees; the randomness itself is not modelled.
- A prompt that never gets an acceptable answer loops for ever in the source. In the model it ends as `Exhausted` or `AnswersExhausted` when the finite answer list runs out.
- PHP turns integer-like string keys such as `"1"` into integers, and `ksort` then compares mixed types. Keys are strings here, ordered by `strcmp` (`Php.StrLess`). `in_array` (line 123) and `array_key_exists` in `select()` use loose comparison; both are exact string equality here.
- Commands.MenuOptions: requires pairwise different API ids, which every PHP array has; on such ids each `$options[$id]` assignment appends.
- Commands.ChosenVersion: an API with no versions gives `None`, standing for the undefined `array_keys([])[0]`. A grouped catalogue never has such an API.
- `$this->apis` is a magic getter that calls `getApis` on every access. `ActionConfigure` calls `GetApis` once. With a non-empty catalogue the later accesses hit the cache; with an empty one they would fetch the same list again.
- `components/GoogleApiClient.php`, `Module.php` and `views/default/index.php` are not part of this model.
