# ContentProviderTest: a Dafny model of the person provider

This project models the core of the ContentProviderTest Android app. The app
exposes a Room table of people (`Person`: id, name, age) to other apps through a
`ContentProvider`.

- **Routing.** The provider routes content URIs with a `UriMatcher`.
  `PROVIDER/person` means the whole table and `PROVIDER/person/person` means the
  rows named "person".
- **Insert.** Insert stores a person under a generated id. It returns the table
  URI with that id appended.
- **Delete.** Delete parses a `key=value&...` selector whose `?` placeholders are
  filled from the selection arguments, then deletes by the parsed id.
- **Update.** Update merges the supplied name and age into the row whose id the
  values carry.
- **Notifications.** Every change that touched a row is announced with
  `notifyChange`.

The project has four files:

- `kotlin_text.dfy` covers the pieces of the Kotlin standard library the
  provider's text handling relies on. Two limits are listed under "## Left out": `toInt` takes ASCII digits only, and formatting is modelled for text without `%`. Within those limits:
  - `split` keeps empty pieces;
  - `toInt` takes an optional sign, decimal digits and the 32-bit range;
  - `?`-to-`%s` formatting fails with too few arguments;
  - `associate` lets a later key win.
- `uri_matcher.dfy` covers `UriMatcher` for literal paths. `match` gives the
  code of the last registration whose authority and segments are equal to the
  URI's, or `NO_MATCH`.
- `people_database.dfy` covers the `Person` table and `PersonDao`.
  - The SQL statements are given as functions on the sequence of rows.
  - The DAO is a class with the rows and the AUTOINCREMENT counter. Its
    invariant is the primary-key constraint.
- `content_provider.dfy` covers the provider itself. It is a class holding its
  DAO and the log of the URIs passed to `notifyChange`.

Each state-changing method states its entire new state. Where the code can
throw, the method returns a `Result` whose `Error` names the failing step.

Points where the model follows the code rather than a plain reading of it:

- **Unregistered authority.** `DOMAIN_URI` is built on the companion object's
  `AUTHORITY`. That authority is not the one registered with the matcher
  (`PROVIDER`). So no request through `DOMAIN_URI` is routed (`DomainUriNeverRoutes`).
- **Non-numeric id in delete.** A delete selector whose `id` value is not an
  Int fails with `NumberFormatException`, because `toInt()` throws before
  `requireNotNull` can reject it. Only a selector with no `id` key at all fails
  with "Id is required".
- **Update without an Int id.** An update whose values lack an Int `id` fails
  at the `as Int` cast: a null-pointer exception when the id is missing, a
  class-cast exception when it is not an Int. It never reaches the "Id
  required" message.
- **Delete reads only the id.** Delete uses only the parsed id. The name and
  age in the selector are parsed and checked but decide nothing, and so does a
  key other than `id`, `name` or `age`.

## Model

| member | source | states |
|---|---|---|
| KotlinText.Split | app/src/main/java/com/programmersbox/contentprovidertest/CustomContentProvider.kt:107-108 | `split` on one character gives one more piece than there are delimiters, and no piece contains the delimiter |
| KotlinText.JoinSplit | app/src/main/java/com/programmersbox/contentprovidertest/CustomContentProvider.kt:107-108 | joining the pieces of a split with the delimiter gives back the text |
| KotlinText.SplitJoin | app/src/main/java/com/programmersbox/contentprovidertest/CustomContentProvider.kt:107-108 | splitting delimiter-free pieces joined by the delimiter gives back exactly those pieces |
| KotlinText.SplitWithout | app/src/main/java/com/programmersbox/contentprovidertest/CustomContentProvider.kt:107-108 | a text without the delimiter splits into itself alone |
| KotlinText.SplitAfter | app/src/main/java/com/programmersbox/contentprovidertest/CustomContentProvider.kt:107-108 | a delimiter-free prefix followed by the delimiter becomes the first piece and the rest splits on its own |
| KotlinText.ToInt | app/src/main/java/com/programmersbox/contentprovidertest/CustomContentProvider.kt:110-115 | `toInt` succeeds exactly on a decimal text with an optional `-` or `+` sign and at least one digit whose value is in 32-bit range, and then gives that value, negated after `-` |
| KotlinText.NatToString | app/src/main/java/com/programmersbox/contentprovidertest/CustomContentProvider.kt:88 | the decimal text of a number is all digits, has no leading zero and denotes that number |
| KotlinText.ToIntOfIntToString | app/src/main/java/com/programmersbox/contentprovidertest/CustomContentProvider.kt:110-115 | `toInt` reads back every 32-bit value that `toString` writes |
| KotlinText.IntToString | app/src/main/java/com/programmersbox/contentprovidertest/CustomContentProvider.kt:88 | `toString` of an id is never empty and starts with `-` exactly when the id is negative |
| KotlinText.Substitute | app/src/main/java/com/programmersbox/contentprovidertest/CustomContentProvider.kt:103-106 | the placeholder formatting succeeds exactly when there are at least as many arguments as `?`, and leaves a text without `?` unchanged |
| KotlinText.SubstituteInterleaves | app/src/main/java/com/programmersbox/contentprovidertest/CustomContentProvider.kt:103-106 | the formatted text is the text between placeholders interleaved with the arguments, in order |
| KotlinText.Associate | app/src/main/java/com/programmersbox/contentprovidertest/CustomContentProvider.kt:108 | `associate` has a key for every pair, and the last pair's key maps to the last pair's value |
| KotlinText.AssociateLookup | app/src/main/java/com/programmersbox/contentprovidertest/CustomContentProvider.kt:108 | `associate` has a key exactly when some pair has it, and maps it to the value of the last such pair |
| UriMatching.MatchIn | app/src/main/java/com/programmersbox/contentprovidertest/CustomContentProvider.kt:44-47 | `match` gives `NO_MATCH` when no registered pattern fits, and otherwise the code of the last pattern that fits |
| UriMatching.NewMatcher | app/src/main/java/com/programmersbox/contentprovidertest/CustomContentProvider.kt:44 | `UriMatcher(NO_MATCH)` with nothing registered gives `NO_MATCH` for every URI |
| UriMatching.AddUri | app/src/main/java/com/programmersbox/contentprovidertest/CustomContentProvider.kt:45-46 | `addURI` keeps the earlier patterns and the no-match code and adds one pattern with the authority and the code, whose segments contain no `/` and joined by `/` give the path |
| UriMatching.Match | app/src/main/java/com/programmersbox/contentprovidertest/CustomContentProvider.kt:56 | `match` gives the no-match code when no registered pattern fits, and otherwise the code of the last pattern that fits |
| CustomContentProvider.ProviderMatcher | app/src/main/java/com/programmersbox/contentprovidertest/CustomContentProvider.kt:44-47 | the `uriMatcher` field holds `PROVIDER` with `person` under code 1, then `PROVIDER` with `person/person` under code 2, and gives `NO_MATCH` otherwise |
| CustomContentProvider.TwoPathPatterns | app/src/main/java/com/programmersbox/contentprovidertest/CustomContentProvider.kt:44-47 | registering `person` and `person/person` gives a one-segment and a two-segment pattern |
| CustomContentProvider.TwoPathMatch | app/src/main/java/com/programmersbox/contentprovidertest/CustomContentProvider.kt:44-47 | such a matcher gives code 1 for the one-segment path, 2 for the two-segment path, `NO_MATCH` for everything else |
| CustomContentProvider.MatcherRoutes | app/src/main/java/com/programmersbox/contentprovidertest/CustomContentProvider.kt:44-47 | the provider's `uriMatcher` routes every URI as `Route` does: code 1 only for `PROVIDER/person`, code 2 only for `PROVIDER/person/person` |
| CustomContentProvider.Route | app/src/main/java/com/programmersbox/contentprovidertest/CustomContentProvider.kt:44-47 | routing gives code 1 exactly for `PROVIDER/person`, code 2 exactly for `PROVIDER/person/person`, and `NO_MATCH` for every other URI |
| CustomContentProvider.DomainUriNeverRoutes | app/src/main/java/com/programmersbox/contentprovidertest/CustomContentProvider.kt:17-23 | the companion object's `DOMAIN_URI` matches no registered pattern |
| CustomContentProvider.GetType | app/src/main/java/com/programmersbox/contentprovidertest/CustomContentProvider.kt:69-75 | `getType` gives the `dir` type for the table, the `item` type for the by-name path, and null exactly for an unrouted URI |
| CustomContentProvider.WithAppendedId | app/src/main/java/com/programmersbox/contentprovidertest/CustomContentProvider.kt:88 | `withAppendedId` keeps the authority and the segments and adds one segment |
| CustomContentProvider.AppendedIdReadsBack | app/src/main/java/com/programmersbox/contentprovidertest/CustomContentProvider.kt:88 | the appended segment parses back to the id |
| CustomContentProvider.Key | app/src/main/java/com/programmersbox/contentprovidertest/CustomContentProvider.kt:108 | `split("=").first()` holds no `=`, and a piece without `=` is its own key |
| CustomContentProvider.KeyIsTextBeforeFirstEquals | app/src/main/java/com/programmersbox/contentprovidertest/CustomContentProvider.kt:108 | the key is a prefix of the piece, followed by `=` when it is shorter |
| CustomContentProvider.Value | app/src/main/java/com/programmersbox/contentprovidertest/CustomContentProvider.kt:108 | `split("=").last()` holds no `=`, and a piece without `=` is its own value |
| CustomContentProvider.ValueIsTextAfterLastEquals | app/src/main/java/com/programmersbox/contentprovidertest/CustomContentProvider.kt:108 | the value is a suffix of the piece, preceded by `=` when it is shorter |
| CustomContentProvider.KeyValueOf | app/src/main/java/com/programmersbox/contentprovidertest/CustomContentProvider.kt:108 | a piece written `key=value` gives back that key and that value |
| CustomContentProvider.Entries | app/src/main/java/com/programmersbox/contentprovidertest/CustomContentProvider.kt:108 | one key and value per piece, neither holding `=` |
| CustomContentProvider.SelectorMap | app/src/main/java/com/programmersbox/contentprovidertest/CustomContentProvider.kt:107-108 | the selector map has the key of every piece, and the last piece's key maps to the last piece's value |
| CustomContentProvider.SelectorMapLookup | app/src/main/java/com/programmersbox/contentprovidertest/CustomContentProvider.kt:107-108 | the selector map has a key exactly when some piece has it, with the value of the last such piece |
| CustomContentProvider.SelectorText | app/src/main/java/com/programmersbox/contentprovidertest/CustomContentProvider.kt:103-106 | a null selection reads as the empty text |
| CustomContentProvider.ParseSelector | app/src/main/java/com/programmersbox/contentprovidertest/CustomContentProvider.kt:99-116 | the selector parse fails with a missing format argument exactly when formatting fails |
| CustomContentProvider.ParsePieces | app/src/main/java/com/programmersbox/contentprovidertest/CustomContentProvider.kt:108-116 | once the text is formatted, the chain fails only with "Id is required" or a number-format failure |
| CustomContentProvider.ParseSelectorOutcomes | app/src/main/java/com/programmersbox/contentprovidertest/CustomContentProvider.kt:103-116 | every outcome of the chain: no `id` piece fails with "Id is required"; a last `id` piece that is not an Int fails with a number-format failure on its value; otherwise a last `age` piece that is not an Int fails the same way; otherwise the person has the Int id, the Int age or 0 without an `age` piece, and the last `name` piece's value or "" without one |
| CustomContentProvider.ParsePiecesOutcomes | app/src/main/java/com/programmersbox/contentprovidertest/CustomContentProvider.kt:108-116 | the same outcomes, stated on the `&`-separated pieces |
| CustomContentProvider.LastValue | app/src/main/java/com/programmersbox/contentprovidertest/CustomContentProvider.kt:108 | the selector map has a key exactly when some piece has it, and maps it to the value of its last piece |
| CustomContentProvider.ParseSelectorNeedsId | app/src/main/java/com/programmersbox/contentprovidertest/CustomContentProvider.kt:110 | a selector with no `id` key fails with "Id is required" |
| CustomContentProvider.NullSelectionNeedsId | app/src/main/java/com/programmersbox/contentprovidertest/CustomContentProvider.kt:103-110 | a null selection always fails with "Id is required" |
| CustomContentProvider.ParseSelectorTakesLastId | app/src/main/java/com/programmersbox/contentprovidertest/CustomContentProvider.kt:108-110 | a successful parse takes its id from the last piece whose key is `id` |
| CustomContentProvider.SubstituteDeleteSelection | app/src/main/java/com/programmersbox/contentprovidertest/CustomContentProvider.kt:103-106 | formatting `id=?&name=?&age=?` puts the three arguments after their keys |
| CustomContentProvider.DeleteSelectorPieces | app/src/main/java/com/programmersbox/contentprovidertest/CustomContentProvider.kt:103-107 | formatting `id=?&name=?&age=?` with three arguments free of `&` and `=` and splitting it at `&` gives the three `key=value` pieces |
| CustomContentProvider.DeleteSelectorMapOf | app/src/main/java/com/programmersbox/contentprovidertest/CustomContentProvider.kt:103-108 | those pieces map `id`, `name` and `age` to the three arguments |
| CustomContentProvider.DeleteSelectorMap | app/src/main/java/com/programmersbox/contentprovidertest/CustomContentProvider.kt:103-108 | the selector written for a person maps `id`, `name` and `age` to the person's fields as text |
| CustomContentProvider.ParseSelectorRoundTrip | app/src/main/java/com/programmersbox/contentprovidertest/CustomContentProvider.kt:99-116 | parsing `id=?&name=?&age=?` with a person's fields gives back that person, for 32-bit fields and a name without `&` or `=` |
| CustomContentProvider.StringField | app/src/main/java/com/programmersbox/contentprovidertest/CustomContentProvider.kt:83-84 | a field reads as a String exactly when the values exist and hold a String under that key, and then it is that String |
| CustomContentProvider.IntField | app/src/main/java/com/programmersbox/contentprovidertest/CustomContentProvider.kt:143-151 | a field reads as an Int exactly when the values exist and hold an Int under that key, and then it is that Int |
| CustomContentProvider.Merge | app/src/main/java/com/programmersbox/contentprovidertest/CustomContentProvider.kt:148-151 | the copy keeps the id and takes each field from the values when they hold one of the right type, otherwise from the current row |
| CustomContentProvider.MergeIdempotent | app/src/main/java/com/programmersbox/contentprovidertest/CustomContentProvider.kt:148-151 | merging the same values twice is merging them once |
| CustomContentProvider.MergeNothing | app/src/main/java/com/programmersbox/contentprovidertest/CustomContentProvider.kt:148-151 | values without name and age leave the row unchanged |
| CustomContentProvider.MergeEverything | app/src/main/java/com/programmersbox/contentprovidertest/CustomContentProvider.kt:148-151 | values with a String name and an Int age replace both and keep the id |
| CustomContentProvider.ContentProvider.constructor | app/src/main/java/com/programmersbox/contentprovidertest/CustomContentProvider.kt:33-42 | a first `onCreate` opens an empty table whose first id is 1, with nothing announced |
| CustomContentProvider.ContentProvider.Query | app/src/main/java/com/programmersbox/contentprovidertest/CustomContentProvider.kt:49-67 | `query` gives every row for the table, the rows named "person" for the by-name path, with distinct ids, null otherwise |
| CustomContentProvider.ContentProvider.Insert | app/src/main/java/com/programmersbox/contentprovidertest/CustomContentProvider.kt:77-94 | `insert` on the table with a String name and an Int age appends them under the next id and moves the counter one past it. It returns and announces the URI with that id appended. A missing or wrongly typed field fails its cast and changes nothing, and another URI gives null |
| CustomContentProvider.ContentProvider.Delete | app/src/main/java/com/programmersbox/contentprovidertest/CustomContentProvider.kt:96-131 | `delete` on the table removes the row with the parsed id and returns 1 or 0. It announces the URI only when a row went. A failed parse throws and changes nothing, and another URI gives 0 and changes nothing |
| CustomContentProvider.ContentProvider.Update | app/src/main/java/com/programmersbox/contentprovidertest/CustomContentProvider.kt:133-163 | `update` on the table replaces the row with the given Int id by the merge of it with the values. It returns 1 and announces the URI. A missing id fails its cast, an unknown id fails the lookup, and another URI gives 0, all changing nothing |
| CustomContentProvider.ProviderWith | app/src/main/java/com/programmersbox/contentprovidertest/CustomContentProvider.kt:77-94 | the first insert into a fresh provider stores the person under id 1, moves the counter to 2 and announces `PROVIDER/person/1` |
| CustomContentProvider.InsertThenDelete | app/src/main/java/com/programmersbox/contentprovidertest/CustomContentProvider.kt:77-131 | deleting by the id an insert was given restores the table and leaves the counter one higher. The log gains `PROVIDER/person/<id>` from the insert and then `PROVIDER/person` from the delete |
| CustomContentProvider.UpdateSession | app/src/main/java/com/programmersbox/contentprovidertest/CustomContentProvider.kt:133-163 | updating the age of the only person by its id keeps its name, and updating an unknown id fails with `NotFound` |
| CustomContentProvider.RejectedDeletes | app/src/main/java/com/programmersbox/contentprovidertest/CustomContentProvider.kt:96-131 | a delete with a null selection fails with "Id is required", and a delete through `DOMAIN_URI` gives 0 for any selection, `%` included; neither removes the stored person |
| CustomContentProvider.DeleteSession | app/src/main/java/com/programmersbox/contentprovidertest/CustomContentProvider.kt:96-131 | a delete whose selector names the stored person's id removes it and returns 1, and repeating it returns 0 |
| PeopleDatabase.Where | app/src/main/java/com/programmersbox/contentprovidertest/PeopleDatabase.kt:36-52 | a `WHERE` keeps exactly the rows satisfying the condition, never more rows than the table |
| PeopleDatabase.WhereKeepsAll | app/src/main/java/com/programmersbox/contentprovidertest/PeopleDatabase.kt:36-37 | a condition every row satisfies keeps the table as it is |
| PeopleDatabase.WherePartition | app/src/main/java/com/programmersbox/contentprovidertest/PeopleDatabase.kt:36-37 | the rows a delete removes and the rows it keeps add up to the table |
| PeopleDatabase.WhereDistinct | app/src/main/java/com/programmersbox/contentprovidertest/PeopleDatabase.kt:57 | filtering keeps the primary key unique |
| PeopleDatabase.WhereIdCount | app/src/main/java/com/programmersbox/contentprovidertest/PeopleDatabase.kt:57 | with a unique primary key, at most one row has a given id |
| PeopleDatabase.WhereAppend | app/src/main/java/com/programmersbox/contentprovidertest/PeopleDatabase.kt:36-37 | filtering a table with one more row filters the old rows and then the new one |
| PeopleDatabase.ReplaceById | app/src/main/java/com/programmersbox/contentprovidertest/PeopleDatabase.kt:39-40 | an update puts the item in place of each row with its id and leaves every other row where and what it was |
| PeopleDatabase.ReplaceByIdDistinct | app/src/main/java/com/programmersbox/contentprovidertest/PeopleDatabase.kt:39-40 | an update keeps the primary key unique |
| PeopleDatabase.Find | app/src/main/java/com/programmersbox/contentprovidertest/CustomContentProvider.kt:143 | a lookup by id finds a row exactly when one has the id, and the row it finds has it |
| PeopleDatabase.DeleteUndoesAppend | app/src/main/java/com/programmersbox/contentprovidertest/PeopleDatabase.kt:30-34 | deleting by the id of a newly appended row gives back the table before it |
| PeopleDatabase.FindAppended | app/src/main/java/com/programmersbox/contentprovidertest/PeopleDatabase.kt:30-31 | a newly appended row is found by its id |
| PeopleDatabase.FindReplaced | app/src/main/java/com/programmersbox/contentprovidertest/PeopleDatabase.kt:39-40 | after an update, its id finds the updated row |
| PeopleDatabase.FindDeleted | app/src/main/java/com/programmersbox/contentprovidertest/CustomContentProvider.kt:120 | after a delete by id, that id finds nothing |
| PeopleDatabase.KeptRowsValid | app/src/main/java/com/programmersbox/contentprovidertest/PeopleDatabase.kt:57-58 | rows taken from a valid table keep their ids set and below the counter |
| PeopleDatabase.AppendFresh | app/src/main/java/com/programmersbox/contentprovidertest/PeopleDatabase.kt:55-58 | appending a row with an unused id below the counter keeps the primary key unique |
| PeopleDatabase.PersonDao.constructor | app/src/main/java/com/programmersbox/contentprovidertest/PeopleDatabase.kt:16-25 | a new database has no rows and generates id 1 first |
| PeopleDatabase.PersonDao.Insert | app/src/main/java/com/programmersbox/contentprovidertest/PeopleDatabase.kt:30-31 | (with the auto-generated key of lines 57-58) an item with id 0 is appended under the next id, which is new.<br>An explicit new id is appended as given, and the counter moves past it.<br>An explicit id already present returns -1 and changes nothing |
| PeopleDatabase.PersonDao.Delete | app/src/main/java/com/programmersbox/contentprovidertest/PeopleDatabase.kt:33-34 | `@Delete` removes the row with the item's primary key and returns 1, or 0 when there is none |
| PeopleDatabase.PersonDao.DeleteById | app/src/main/java/com/programmersbox/contentprovidertest/CustomContentProvider.kt:120 | deleting by id removes exactly the row with that id and returns how many went. An absent id changes nothing |
| PeopleDatabase.PersonDao.DeleteByName | app/src/main/java/com/programmersbox/contentprovidertest/PeopleDatabase.kt:36-37 | removes exactly the rows with that name and returns how many there were |
| PeopleDatabase.PersonDao.Update | app/src/main/java/com/programmersbox/contentprovidertest/PeopleDatabase.kt:39-40 | replaces the row with the item's id and returns 1, or changes nothing and returns 0 |
| PeopleDatabase.PersonDao.SelectAll | app/src/main/java/com/programmersbox/contentprovidertest/PeopleDatabase.kt:42-49 | `SELECT *` gives every row and no other, with distinct ids |
| PeopleDatabase.PersonDao.SelectByName | app/src/main/java/com/programmersbox/contentprovidertest/PeopleDatabase.kt:51-52 | gives exactly the rows with that name, with distinct ids |
| PeopleDatabase.PersonDao.GetPersonById | app/src/main/java/com/programmersbox/contentprovidertest/CustomContentProvider.kt:143 | finds a row exactly when one has the id, and that row |

## Left out

- Coroutines (`runBlocking`, `suspend`) are left out: every call is modelled as completing in order.
- Thread safety is left out.
- `ContentResolver` delivery and observers are left out. `notifyChange` is modelled as appending the URI to a log.
- `println(p)` in `delete` is left out, because it is output only.
- Room's database builder, the file named "person" and `AppDatabase.getDao` are reduced to the constructors. They are I/O.
- Rows and the AUTOINCREMENT counter kept in that file from an earlier run are not modelled: the constructor gives the state of a first `onCreate`.
- Android's `UriMatcher` gives its root code only for a URI with neither authority nor path, and `NO_MATCH` for any other URI no pattern fits. The model gives the root code in both cases, which is the same for `UriMatcher(NO_MATCH)`, the only matcher the app creates.
- A `Cursor` is modelled as the sequence of rows it would iterate.
- `projection` and `sortOrder` are not modelled, because the code ignores them.
- `ContentProvider.Query` takes only the URI. The `selection` and `selectionArgs` of `query` (lines 52-53 of `CustomContentProvider.kt`) are ignored by the code, so they are not modelled.
- `ContentProvider.Update` takes the `update` selection and its arguments and ignores them, as the code does.
- `PersonDao.SelectAll` stands for `getPeople`, `getPeopleFlow` and `selectAll` alike, because all three run the same query. It does not model the Flow's repeated emissions.
- The order of `SELECT` results is modelled as insertion order. SQL gives no order without `ORDER BY`.
- `PersonDao.DeleteById` and `PersonDao.GetPersonById` are called by the provider, but the DAO interface does not declare them. They are modelled as a delete and a lookup by primary key.
- `PersonDao.GetPersonById` returns `None` when no row has the id. The provider turns that into `NotFound`, matching the failure the non-null `Person` return type would surface.
- Ids and ages are unbounded integers. The model does not capture a 32-bit overflow of a generated id or SQLite's 64-bit row id limit.
- `KotlinText.ToInt`: only ASCII digits are modelled. Kotlin also accepts other Unicode decimal digits.
- `CustomContentProvider.SelectorText`: this requires a selection without `%`. Kotlin's `format` would read any other `%` as a format specifier, which is not modelled.
- `CustomContentProvider.ParseSelector`: this has the same requirement of a selection without `%`, for the same reason.
- `CustomContentProvider.ContentProvider.Delete`: a routed delete has the same requirement of a selection without `%`, for the same reason. A delete through any other URI never formats its selection and takes any selection.
- `UriMatching.AddUri`: this handles literal segments only. The `#` and `*` wildcards, a leading `/` in the path and Java's dropping of trailing empty segments are not registered by this app, so they are not modelled.
- Uri parsing (`Uri.parse`, `withAppendedPath`, schemes) is reduced to an authority plus path segments. `AUTHORITY_URI` appears only as the authority of `DOMAIN_URI`.
- The reader app and the UI that call this provider are not part of this model.
