# User security report — a Dafny model

The model covers the row-building logic of the CMS user security report
(`UserSecurityReport`). The report lists every member with:

- identity fields;
- the last visit, or "Never";
- the security groups, as the groups' tree titles joined with ", " and passed
  once through a small markup stripper;
- the human-readable names of the member's permission codes, looked up in the
  permission catalog.

It also has a fixed table of eight columns and a list of sortable keys.

The member store, the group hierarchy and the permission catalog are outside
the model. What they return comes in as plain values:

- a `Member` carries its id, first name, surname, email, creation date, an
  optional last-visited string, the tree titles of its groups and its
  effective permission codes;
- a `Catalog` is the ordered sequence of permission categories, each a map
  from code to the entry's optional name.

Files and modules:

- `wrappers.dfy`, module `Wrappers`: `Option`, for PHP's `null`.
- `php_strings.dfy`, module `PhpStrings`: the PHP built-ins the report uses.
  These are truthiness (`!$s`, `empty($s)`: null, "" and "0" are falsy),
  `strtoupper` and `implode`.
- `tag_stripper.dfy`, module `TagStripper`: `preg_replace("#</?[^>]>#", '', …)`
  written as a left-to-right scan. `MatchLength` is the anchored match, with the
  "/" branch tried before the branch without it. `StripShortTags` is the global,
  non-overlapping pass.
- `user_security_report.dfy`, module `UserSecurityReport`: the columns, the
  three per-member helpers and `SourceRecords`.

Some source functions update a local list inside a loop: `getMemberGroups`,
`getMemberPermissions` and `sourceRecords`. Each becomes a `method` with that
loop. Each method is proved equal to a specification function
(`MemberGroups`, `MemberPermissions`) or to field-by-field equations over it.
The lemmas are stated about those functions.

What is proved, in the system's terms:

- Last visit: a falsy value becomes "Never" and any other value comes back
  unchanged. The result is never falsy itself.
- Groups: a member without groups gets "Not in a Security Group". Otherwise the
  result is one stripping pass over the joined titles.
  - That pass gives the same result as stripping each title on its own and then
    joining. No match of the pattern can contain a byte of the ", " separator,
    so no tag can be removed across two titles.
  - A single title without markup comes back verbatim.
- Tag stripper:
  - `MatchLength` finds a match exactly when a prefix of the input is in the
    pattern's language. At most one prefix can be.
  - A short tag at the scan position is dropped. Any other byte is kept.
  - Input without "<" is unchanged. The output is never longer than the input.
  - Longer tags such as `<span>` survive, and one pass can leave a tag behind.
- Permissions:
  - Names come in member-code order. Within one code they come in catalog
    order, one per category holding the upper-cased code, so duplicates are
    kept.
  - The number of names is the sum, over the codes, of the number of categories
    holding the upper-cased code.
  - A name appears exactly when some code resolves to it.
  - "Unknown" replaces the name of an entry whose name is empty or missing.
  - When no category holds any code, the cell is "No Permissions". Otherwise
    it is the names joined with ", ", which is not empty and can only equal the
    sentinel if an entry is named so (`SentinelNamedEntryExample`).
  - Member codes are upper-cased before the lookup, so codes that differ only
    in case resolve alike. Catalog keys are compared as they are.
- Rows: one per member, in the input order. Five fields are copied and three
  come from the helpers. Rows are sorted by id whenever the members are.
- Columns: `GetColumns` is the same table as `Columns`. The table has eight
  distinct keys. `SortColumns` lists exactly those keys in the same order. Every
  column key names a field of every row.

Behaviour of the code worth knowing:

- The groups cell can be empty: a lone single-byte tag such as `<b>`, or an
  empty title, strips to "" (`GroupsCellCanBeEmpty`).
- A code no category holds adds no name (`UnheldCodeExample`). "Unknown"
  replaces the name of an entry whose name is empty or missing
  (`ReorganiseNames`).
- Only tags with one byte of content are removed, and in one pass
  (`StripKeepsLongTags`, `StripIsSinglePass`).
- PHP truthiness makes "0" give "Never" for the last visit, as null and ""
  do (`LastVisitedExamples`).
- A catalog key with an ASCII lower-case letter, such as
  `CMS_ACCESS_SecurityAdmin`, never matches, not even the identical member
  code, because only the member's code is upper-cased (`LowercaseKeysNeverResolve`,
  `MixedCaseKeyExample`).

`ExampleCatalog` is an illustrative catalog. It holds the standard codes ADMIN
and SITETREE_REORGANISE, the second in two categories. `SingleHolderCatalog`
holds each of them once.

## Model

| member | source | states |
|---|---|---|
| `UserSecurityReport.Columns` | code/reports/UserSecurityReport.php:17-26 | the column table has eight columns whose keys are pairwise distinct |
| `UserSecurityReport.GetColumns` | code/reports/UserSecurityReport.php:51-63 | the export alias returns the same table as `columns()` |
| `UserSecurityReport.SortColumns` | code/reports/UserSecurityReport.php:80-91 | the sortable keys are exactly the keys of the column table, in table order |
| `UserSecurityReport.ColumnsResolveOnRows` | code/reports/UserSecurityReport.php:106-115 | every column key and every sortable key names a field present in each row record |
| `UserSecurityReport.LastVisitedStatus` | code/reports/UserSecurityReport.php:127-132 | null, "" and "0" give "Never"; any other value is returned unchanged |
| `UserSecurityReport.LastVisitedStatusIsTruthy` | code/reports/UserSecurityReport.php:127-132 | the status is never falsy, so applying the function to its own result changes nothing |
| `UserSecurityReport.LastVisitedExamples` | tests/reports/UserSecurityReportTest.php:34-43 | a timestamp string comes back as it is; an empty or null one gives "Never", and so does "0" |
| `UserSecurityReport.MemberGroups` | code/reports/UserSecurityReport.php:140-154 | the groups cell: "Not in a Security Group" for no titles, otherwise one stripping pass over the titles joined with ", " |
| `UserSecurityReport.GetMemberGroups` | code/reports/UserSecurityReport.php:140-154 | the loop that collects the titles, followed by joining and stripping, yields `MemberGroups` |
| `UserSecurityReport.MemberGroupsSpec` | code/reports/UserSecurityReport.php:142-153 | no groups give "Not in a Security Group"; otherwise the cell equals the titles stripped one by one and joined with ", " |
| `UserSecurityReport.SingleGroupVerbatim` | code/reports/UserSecurityReport.php:148-153 | a single title without "<" is the cell verbatim |
| `UserSecurityReport.PlainGroupsJoined` | code/reports/UserSecurityReport.php:148-153 | titles without "<" are joined with ", " unchanged |
| `UserSecurityReport.GroupsCellCanBeEmpty` | code/reports/UserSecurityReport.php:153 | a member whose only title is empty or a single-byte tag such as "<b>" gets an empty groups cell |
| `UserSecurityReport.GroupExamples` | tests/reports/UserSecurityReportTest.php:45-53 | zero groups give the sentinel; the single group "Group Test 01" gives "Group Test 01" |
| `UserSecurityReport.SeveralGroupsExample` | code/reports/UserSecurityReport.php:148-153 | titles "Admins" and "Editors" give "Admins, Editors", in the store's order |
| `TagStripper.MatchLength` | code/reports/UserSecurityReport.php:153 | an anchored match is 0, 3 or 4 bytes long and never longer than the input |
| `TagStripper.MatchLengthIsTagPrefix` | code/reports/UserSecurityReport.php:153 | a found match is a word of the pattern `</?[^>]>`; a prefix that is such a word is exactly the match found, so at most one prefix qualifies |
| `TagStripper.StripShortTags` | code/reports/UserSecurityReport.php:153 | the pass never makes the string longer |
| `TagStripper.StripDropsTag` | code/reports/UserSecurityReport.php:153 | a short tag at the scan position is deleted and the scan goes on after it |
| `TagStripper.StripKeepsByte` | code/reports/UserSecurityReport.php:153 | a byte where no short tag starts is kept and the scan moves on by one byte |
| `TagStripper.StripKeepsPlainPrefix` | code/reports/UserSecurityReport.php:153 | bytes before the first "<" are kept unchanged in front of the stripped rest |
| `TagStripper.StripWithoutAngle` | code/reports/UserSecurityReport.php:153 | an input without "<" comes back unchanged |
| `TagStripper.MatchLengthBeforeSeparator` | code/reports/UserSecurityReport.php:153 | a match starting before a ", " separator never extends into it |
| `TagStripper.StripTagBeforeSeparator` | code/reports/UserSecurityReport.php:153 | deleting a match at the start of a carries the split at a following ", " from the rest of a to a |
| `TagStripper.StripByteBeforeSeparator` | code/reports/UserSecurityReport.php:153 | keeping a byte at the start of a carries the split at a following ", " from the rest of a to a |
| `TagStripper.StripBeforeSeparator` | code/reports/UserSecurityReport.php:153 | the pass over a followed by a string that starts with ", " is the pass over a followed by the pass over that string |
| `TagStripper.StripAcrossSeparator` | code/reports/UserSecurityReport.php:153 | stripping a + ", " + b gives strip(a) + ", " + strip(b) |
| `TagStripper.StripJoinIsJoinStripped` | code/reports/UserSecurityReport.php:153 | one pass over the joined titles equals joining the titles stripped one by one |
| `TagStripper.StripRemovesShortTags` | code/reports/UserSecurityReport.php:153 | "<b>Admins</b>" becomes "Admins" |
| `TagStripper.StripRemovesSlashTags` | code/reports/UserSecurityReport.php:153 | "</>" and "<//>" are both tags of the pattern and are removed |
| `TagStripper.StripKeepsLongTags` | code/reports/UserSecurityReport.php:153 | "<span>" survives, because the pattern allows one byte of content only |
| `TagStripper.StripIsSinglePass` | code/reports/UserSecurityReport.php:153 | "<<b>i>" becomes "<i>", which a second pass would remove: the pass is not idempotent |
| `PhpStrings.IsEmpty` | code/reports/UserSecurityReport.php:128 | PHP falsiness of a nullable string, as `!$s` at line 128 and `empty()` at line 171 test it: null, "" and "0" |
| `PhpStrings.ToUpper` | code/reports/UserSecurityReport.php:168 | `strtoupper`: each byte a..z mapped to A..Z, every other byte kept, length unchanged |
| `PhpStrings.Join` | code/reports/UserSecurityReport.php:153 | `implode`: the parts in order with the separator between neighbours; "" for no parts (also used at line 181) |
| `PhpStrings.ToUpperHasNoLowercase` | code/reports/UserSecurityReport.php:168 | upper-casing keeps the length and leaves no ASCII lower-case letter |
| `PhpStrings.ToUpperFixesUpper` | code/reports/UserSecurityReport.php:168 | a code without lower-case letters is its own upper-case form |
| `PhpStrings.JoinPair` | code/reports/UserSecurityReport.php:181 | two parts are joined around one separator |
| `PhpStrings.JoinStartsWithFirst` | code/reports/UserSecurityReport.php:181 | the joined names start with the first name, so they are not empty when it is not |
| `UserSecurityReport.DisplayName` | code/reports/UserSecurityReport.php:171 | a non-empty entry name is shown; an empty ("" or "0") or missing one shows "Unknown"; the result is never empty |
| `UserSecurityReport.NamesForCode` | code/reports/UserSecurityReport.php:169-174 | the names one upper-cased code contributes: one `DisplayName` per category holding it, in catalog order |
| `UserSecurityReport.PermissionNames` | code/reports/UserSecurityReport.php:166-175 | all names, code by code in the member's order, each code upper-cased before its lookup |
| `UserSecurityReport.MemberPermissions` | code/reports/UserSecurityReport.php:162-182 | the permissions cell: "No Permissions" when no name was found, otherwise the names joined with ", " |
| `UserSecurityReport.GetMemberPermissions` | code/reports/UserSecurityReport.php:162-182 | the nested loops over codes and categories, followed by the sentinel test or the join, yield `MemberPermissions` |
| `UserSecurityReport.NamesForCodeAppend` | code/reports/UserSecurityReport.php:169-174 | within one code, names follow catalog-category order |
| `UserSecurityReport.PermissionNamesAppend` | code/reports/UserSecurityReport.php:167-175 | across codes, names follow the member's code order |
| `UserSecurityReport.NamesForCodeCount` | code/reports/UserSecurityReport.php:169-174 | a code yields exactly as many names as there are categories holding it |
| `UserSecurityReport.PermissionNamesCount` | code/reports/UserSecurityReport.php:166-175 | the number of names is the sum over the codes of the number of categories holding the upper-cased code, with duplicates kept |
| `UserSecurityReport.NamesForCodeMembership` | code/reports/UserSecurityReport.php:169-174 | a name is produced for a code if and only if some category holding the code displays that name |
| `UserSecurityReport.PermissionNamesMembership` | code/reports/UserSecurityReport.php:167-175 | a name is in the member's list if and only if some upper-cased code of the member resolves to it in some category |
| `UserSecurityReport.PermissionNamesEmpty` | code/reports/UserSecurityReport.php:166-177 | no name is produced if and only if no category holds any upper-cased code |
| `UserSecurityReport.MemberPermissionsSpec` | code/reports/UserSecurityReport.php:177-181 | with no held code the cell is "No Permissions"; otherwise it is the names joined with ", " and not empty |
| `UserSecurityReport.PermissionNamesIgnoreCase` | code/reports/UserSecurityReport.php:168 | member codes that agree after upper-casing resolve to the same names |
| `UserSecurityReport.LowercaseKeyNeverMatches` | code/reports/UserSecurityReport.php:168-170 | a catalog key with an ASCII lower-case letter never equals an upper-cased member code |
| `UserSecurityReport.LowercaseKeysNeverResolve` | code/reports/UserSecurityReport.php:166-179 | against a catalog whose every key has a lower-case letter, every member gets "No Permissions" |
| `UserSecurityReport.MixedCaseKeyExample` | code/reports/UserSecurityReport.php:168-170 | the key `CMS_ACCESS_SecurityAdmin` is not matched even by the identical member code, so the cell is "No Permissions" |
| `UserSecurityReport.NoCodesExample` | tests/reports/UserSecurityReportTest.php:56-58 | a member without codes gets "No Permissions" |
| `UserSecurityReport.OneCodeExample` | tests/reports/UserSecurityReportTest.php:60-62 | the code "admin" resolves, through upper-casing, to "Full administrative rights" |
| `UserSecurityReport.AdminNames` | code/reports/UserSecurityReport.php:169-174 | ADMIN, held by one category of the example catalog, yields one name |
| `UserSecurityReport.ReorganiseNames` | code/reports/UserSecurityReport.php:169-174 | SITETREE_REORGANISE, held by two categories, yields two names, the second "Unknown" because its name is "0" |
| `UserSecurityReport.SingleHolderAdmin` | code/reports/UserSecurityReport.php:169-174 | ADMIN, held by one category of the single-holder catalog, yields one name |
| `UserSecurityReport.SingleHolderReorganise` | code/reports/UserSecurityReport.php:169-174 | SITETREE_REORGANISE, held by one category of the single-holder catalog, yields one name |
| `UserSecurityReport.SingleHolderNames` | code/reports/UserSecurityReport.php:166-175 | ADMIN then SITETREE_REORGANISE give their two names in the member's code order |
| `UserSecurityReport.TwoCodesExample` | tests/reports/UserSecurityReportTest.php:64-66 | a member holding ADMIN and SITETREE_REORGANISE, each held once, gets the cell "Full administrative rights, Change site structure" |
| `UserSecurityReport.DuplicateHolderExample` | code/reports/UserSecurityReport.php:166-175 | a code held by two categories adds two names after the first code's name, the second "Unknown" because its name is "0" |
| `UserSecurityReport.SentinelNamedEntryExample` | code/reports/UserSecurityReport.php:169-181 | a held code whose entry is named "No Permissions" gives a cell equal to the sentinel, so the sentinel does not by itself mean that nothing is held |
| `UserSecurityReport.UnheldCodeExample` | code/reports/UserSecurityReport.php:170-179 | a code that no category holds adds no name, so the cell is "No Permissions" |
| `UserSecurityReport.SourceRecords` | code/reports/UserSecurityReport.php:98-119 | one row per member, in order; id, names, email and created are copied; last visit, groups and permissions are the helpers' results; rows are sorted by id when members are |

## Left out

- `canView` (line 189) only passes on the answer of the foreign `Permission::checkMember`. It is not modelled.
- `description` (line 42) depends on the host name and the wall clock. It is not modelled.
- `getReportField` (lines 202-213) wires grid buttons in the UI framework. It is not modelled.
- `summaryFields` (line 72) reads an instance property that does not exist rather than the static table. It is not modelled.
- The store and catalog calls are inputs:
  - `Member::get()->sort('ID')`: the members arrive already sorted, and `SourceRecords` promises sorted rows only when they are;
  - `$member->Groups()` and `getTreeTitle()`: the tree titles arrive as strings;
  - `Permission::permissions_for_member` and `Permission::get_codes`: the codes and the catalog arrive as values.
- Localisation (`_t`) is not modelled. The sentinels are their English defaults.
- `title` (lines 33-35) returns a translated constant. It is not modelled.
- CSV export and print rendering happen in framework button classes. The grid and export adapters are not part of this model.
- `ArrayList` and `DataObject` are modelled as a sequence of a `ReportRow` record and the `Field` lookup. Their object identity and framework behaviour are not modelled.
- A catalog entry is present or absent. PHP's `isset` would also reject an entry whose value is null, which the catalog never holds.
- A `char` stands for one byte of a PHP string. The model does not relate multi-byte characters to their encodings.
- `strtoupper` is modelled as the locale-independent ASCII mapping. Older PHP versions consulted the locale.
