/**
 * The user security report: one row per member with the member's identity,
 * last visit, security groups and the human-readable names of the member's
 * permissions.
 *
 * The member store, the group hierarchy and the permission catalog are not
 * part of this model: their answers come in as values. A member carries the
 * tree titles of its groups (in the order the store lists them) and its
 * effective permission codes; the catalog is the ordered list of categories,
 * each mapping a code to the catalog entry's optional name.
 */
module UserSecurityReport {
  import opened Wrappers
  import opened PhpStrings
  import opened TagStripper

  /** A member as the member store returns it. */
  datatype Member = Member(
    id: int,
    firstName: string,
    surname: string,
    email: string,
    created: string,
    lastVisited: Option<string>,
    groupTitles: seq<string>,
    permissionCodes: seq<string>)

  /** One category of the permission catalog: code -> the entry's name, if it has one. */
  type Category = map<string, Option<string>>

  /** The permission catalog, its categories in catalog order. */
  type Catalog = seq<Category>

  /** One row of the report, built fresh for every member. */
  datatype ReportRow = ReportRow(
    id: int,
    firstName: string,
    surname: string,
    email: string,
    created: string,
    lastVisited: string,
    groups: string,
    permissions: string)

  /** A column of the report table: the field key and its heading. */
  datatype Column = Column(key: string, heading: string)

  const Never: string := "Never"
  const NoGroups: string := "Not in a Security Group"
  const NoPermissions: string := "No Permissions"
  const UnknownName: string := "Unknown"

  // ---------------------------------------------------------------------
  // Report metadata: columns
  // ---------------------------------------------------------------------

  /** The fixed column table, in display order. */
  const ColumnTable: seq<Column> := [
    Column("ID", "User ID"),
    Column("FirstName", "First Name"),
    Column("Surname", "Surname"),
    Column("Email", "Email"),
    Column("Created", "Date Created"),
    Column("LastVisited", "Last Visit"),
    Column("Groups", "Groups"),
    Column("Permissions", "Permissions")
  ]

  /** The columns of the report: eight of them, keyed by distinct field names. */
  function Columns(): (cols: seq<Column>)
    ensures |cols| == 8
    ensures forall i, j :: 0 <= i < j < |cols| ==> cols[i].key != cols[j].key
  {
    ColumnTable
  }

  /** The alias used by the export button: the same table. */
  function GetColumns(): (cols: seq<Column>)
    ensures cols == Columns()
  {
    ColumnTable
  }

  /** The sortable columns: every key of the column table, in table order. */
  function SortColumns(): (keys: seq<string>)
    ensures |keys| == |Columns()|
    ensures forall i :: 0 <= i < |keys| ==> keys[i] == Columns()[i].key
  {
    ["ID", "FirstName", "Surname", "Email", "Created", "LastVisited", "Groups", "Permissions"]
  }

  // ---------------------------------------------------------------------
  // Last visit
  // ---------------------------------------------------------------------

  /** "Never" for a falsy timestamp (null, "" or "0"), else the timestamp unchanged. */
  function LastVisitedStatus(lastVisited: Option<string>): (r: string)
    ensures IsEmpty(lastVisited) ==> r == Never
    ensures !IsEmpty(lastVisited) ==> r == lastVisited.value
  {
    if IsEmpty(lastVisited) then Never else lastVisited.value
  }

  /**
   * The status is never falsy itself, so feeding it back in changes nothing.
   */
  lemma LastVisitedStatusIsTruthy(lastVisited: Option<string>)
    ensures !IsEmpty(Some(LastVisitedStatus(lastVisited)))
    ensures LastVisitedStatus(Some(LastVisitedStatus(lastVisited))) == LastVisitedStatus(lastVisited)
  {
  }

  // ---------------------------------------------------------------------
  // Groups
  // ---------------------------------------------------------------------

  /** The groups cell: the sentinel, or the joined tree titles after one pass of the tag stripper. */
  function MemberGroups(member: Member): string {
    if |member.groupTitles| == 0 then NoGroups
    else StripShortTags(Join(Separator, member.groupTitles))
  }

  /** Collects the member's group titles in a loop, then joins and strips them. */
  method GetMemberGroups(member: Member) returns (r: string)
    ensures r == MemberGroups(member)
  {
    var groups := member.groupTitles;
    if |groups| == 0 {
      return NoGroups;
    }
    var groupNames: seq<string> := [];
    for i := 0 to |groups|
      invariant groupNames == groups[..i]
    {
      groupNames := groupNames + [groups[i]];
    }
    assert groupNames == groups;
    r := StripShortTags(Join(Separator, groupNames));
  }

  /**
   * No groups give the sentinel; otherwise the cell is the titles, each
   * stripped on its own, joined with ", ": the separator never takes part in
   * a removed tag.
   */
  lemma MemberGroupsSpec(member: Member)
    ensures |member.groupTitles| == 0 ==> MemberGroups(member) == NoGroups
    ensures |member.groupTitles| > 0 ==>
      MemberGroups(member) == Join(Separator, StripEach(member.groupTitles))
  {
    StripJoinIsJoinStripped(member.groupTitles);
  }

  /** A single title without markup comes back verbatim. */
  lemma SingleGroupVerbatim(member: Member)
    requires |member.groupTitles| == 1
    requires '<' !in member.groupTitles[0]
    ensures MemberGroups(member) == member.groupTitles[0]
  {
    StripWithoutAngle(member.groupTitles[0]);
  }

  /** Titles without markup are joined unchanged. */
  lemma PlainGroupsJoined(member: Member)
    requires |member.groupTitles| > 0
    requires forall i :: 0 <= i < |member.groupTitles| ==> '<' !in member.groupTitles[i]
    ensures MemberGroups(member) == Join(Separator, member.groupTitles)
  {
    StripJoinIsJoinStripped(member.groupTitles);
    var titles := member.groupTitles;
    forall i | 0 <= i < |titles|
      ensures StripEach(titles)[i] == titles[i]
    {
      StripWithoutAngle(titles[i]);
    }
    assert StripEach(titles) == titles;
  }

  /**
   * Unlike the sentinel cases, the groups cell can be empty: a member whose
   * only group title is empty or a single-byte tag.
   */
  lemma GroupsCellCanBeEmpty(member: Member)
    requires |member.groupTitles| == 1
    requires member.groupTitles[0] == "" || IsShortTag(member.groupTitles[0])
    ensures MemberGroups(member) == ""
  {
    var t := member.groupTitles[0];
    if t != "" {
      StripDropsTag(t, "");
      assert t + "" == t;
    }
  }

  // ---------------------------------------------------------------------
  // Permissions
  // ---------------------------------------------------------------------

  /** An entry's display name: its name unless that is empty or missing, else "Unknown". */
  function DisplayName(name: Option<string>): (r: string)
    ensures !IsEmpty(name) ==> r == name.value
    ensures IsEmpty(name) ==> r == UnknownName
    ensures r != ""
  {
    if IsEmpty(name) then UnknownName else name.value
  }

  /** The names one (upper-cased) code resolves to: one per category holding it, in catalog order. */
  function NamesForCode(code: string, catalog: Catalog): seq<string>
    decreases |catalog|
  {
    if catalog == [] then []
    else
      (if code in catalog[0] then [DisplayName(catalog[0][code])] else [])
      + NamesForCode(code, catalog[1..])
  }

  /** All names the member's codes resolve to, code by code in the member's order. */
  function PermissionNames(codes: seq<string>, catalog: Catalog): seq<string>
    decreases |codes|
  {
    if codes == [] then []
    else NamesForCode(ToUpper(codes[0]), catalog) + PermissionNames(codes[1..], catalog)
  }

  /** The permissions cell: the sentinel when no name was found, else the names joined. */
  function MemberPermissions(member: Member, catalog: Catalog): string {
    var names := PermissionNames(member.permissionCodes, catalog);
    if |names| == 0 then NoPermissions else Join(Separator, names)
  }

  /** Looking a code up in two stretches of the catalog gives the two lists one after the other. */
  lemma {:induction false} NamesForCodeAppend(code: string, a: Catalog, b: Catalog)
    ensures NamesForCode(code, a + b) == NamesForCode(code, a) + NamesForCode(code, b)
    decreases |a|
  {
    if a == [] {
      assert a + b == b;
    } else {
      assert (a + b)[0] == a[0];
      assert (a + b)[1..] == a[1..] + b;
      NamesForCodeAppend(code, a[1..], b);
    }
  }

  /** The names of a list of codes are the names of its first part followed by those of the rest. */
  lemma {:induction false} PermissionNamesAppend(a: seq<string>, b: seq<string>, catalog: Catalog)
    ensures PermissionNames(a + b, catalog) == PermissionNames(a, catalog) + PermissionNames(b, catalog)
    decreases |a|
  {
    if a == [] {
      assert a + b == b;
    } else {
      assert (a + b)[0] == a[0];
      assert (a + b)[1..] == a[1..] + b;
      PermissionNamesAppend(a[1..], b, catalog);
    }
  }

  /**
   * Walks the member's codes and, for each upper-cased code, every catalog
   * category, appending a name for each category that holds the code; then
   * returns the sentinel or the joined names.
   */
  method GetMemberPermissions(member: Member, catalog: Catalog) returns (r: string)
    ensures r == MemberPermissions(member, catalog)
  {
    var codes := member.permissionCodes;
    var permissionNames: seq<string> := [];
    for i := 0 to |codes|
      invariant permissionNames == PermissionNames(codes[..i], catalog)
    {
      var code := ToUpper(codes[i]);
      ghost var before := permissionNames;
      for k := 0 to |catalog|
        invariant permissionNames == before + NamesForCode(code, catalog[..k])
      {
        if code in catalog[k] {
          var name := DisplayName(catalog[k][code]);
          permissionNames := permissionNames + [name];
        }
        assert catalog[..k + 1] == catalog[..k] + [catalog[k]];
        NamesForCodeAppend(code, catalog[..k], [catalog[k]]);
      }
      assert catalog[..|catalog|] == catalog;
      assert codes[..i + 1] == codes[..i] + [codes[i]];
      PermissionNamesAppend(codes[..i], [codes[i]], catalog);
    }
    assert codes[..|codes|] == codes;
    if |permissionNames| == 0 {
      return NoPermissions;
    }
    r := Join(Separator, permissionNames);
  }

  /** The indices of the categories that hold code. */
  function CategoriesHolding(code: string, catalog: Catalog): set<int> {
    set k | 0 <= k < |catalog| && code in catalog[k]
  }

  /** For every code, how many categories hold its upper-cased form, summed over the codes. */
  function MatchCount(codes: seq<string>, catalog: Catalog): nat
    decreases |codes|
  {
    if codes == [] then 0
    else |CategoriesHolding(ToUpper(codes[0]), catalog)| + MatchCount(codes[1..], catalog)
  }

  /** A code yields exactly one name per category holding it. */
  lemma {:induction false} NamesForCodeCount(code: string, catalog: Catalog)
    ensures |NamesForCode(code, catalog)| == |CategoriesHolding(code, catalog)|
    decreases |catalog|
  {
    if catalog == [] {
      assert CategoriesHolding(code, catalog) == {};
    } else {
      var init, last := catalog[..|catalog| - 1], catalog[|catalog| - 1];
      assert catalog == init + [last];
      NamesForCodeAppend(code, init, [last]);
      NamesForCodeCount(code, init);
      var held := CategoriesHolding(code, init);
      assert forall k :: 0 <= k < |init| ==> catalog[k] == init[k];
      if code in last {
        assert CategoriesHolding(code, catalog) == held + {|init|};
        assert |init| !in held;
      } else {
        assert CategoriesHolding(code, catalog) == held;
      }
    }
  }

  /**
   * The number of names is the sum, over the member's codes, of the number
   * of categories holding the upper-cased code: duplicates are kept.
   */
  lemma {:induction false} PermissionNamesCount(codes: seq<string>, catalog: Catalog)
    ensures |PermissionNames(codes, catalog)| == MatchCount(codes, catalog)
    decreases |codes|
  {
    if codes != [] {
      NamesForCodeCount(ToUpper(codes[0]), catalog);
      PermissionNamesCount(codes[1..], catalog);
    }
  }

  /** Category k holds code and its entry displays as name. */
  predicate Resolves(catalog: Catalog, k: int, code: string, name: string) {
    0 <= k < |catalog| && code in catalog[k] && DisplayName(catalog[k][code]) == name
  }

  /** A name is produced for a code exactly when some category holding the code displays it. */
  lemma {:induction false} NamesForCodeMembership(code: string, catalog: Catalog, name: string)
    ensures name in NamesForCode(code, catalog) <==> exists k :: Resolves(catalog, k, code, name)
    decreases |catalog|
  {
    if catalog != [] {
      var head := if code in catalog[0] then [DisplayName(catalog[0][code])] else [];
      var rest := NamesForCode(code, catalog[1..]);
      assert NamesForCode(code, catalog) == head + rest;
      NamesForCodeMembership(code, catalog[1..], name);
      if name in head {
        assert Resolves(catalog, 0, code, name);
      }
      if name in rest {
        var k :| Resolves(catalog[1..], k, code, name);
        assert Resolves(catalog, k + 1, code, name);
      }
      if exists k :: Resolves(catalog, k, code, name) {
        var k :| Resolves(catalog, k, code, name);
        if k > 0 {
          assert Resolves(catalog[1..], k - 1, code, name);
        } else {
          assert name in head;
        }
      }
    }
  }

  /**
   * A name appears in the member's list exactly when one of the member's
   * codes, upper-cased, is held by a category whose entry displays as it.
   */
  lemma {:induction false} PermissionNamesMembership(codes: seq<string>, catalog: Catalog, name: string)
    ensures name in PermissionNames(codes, catalog) <==>
      exists i, k :: 0 <= i < |codes| && Resolves(catalog, k, ToUpper(codes[i]), name)
    decreases |codes|
  {
    if codes != [] {
      var first := NamesForCode(ToUpper(codes[0]), catalog);
      var rest := PermissionNames(codes[1..], catalog);
      assert PermissionNames(codes, catalog) == first + rest;
      NamesForCodeMembership(ToUpper(codes[0]), catalog, name);
      PermissionNamesMembership(codes[1..], catalog, name);
      if name in first {
        var k :| Resolves(catalog, k, ToUpper(codes[0]), name);
        assert 0 < |codes| && Resolves(catalog, k, ToUpper(codes[0]), name);
      }
      if name in rest {
        var i, k :| 0 <= i < |codes[1..]| && Resolves(catalog, k, ToUpper(codes[1..][i]), name);
        assert codes[1..][i] == codes[i + 1];
        assert Resolves(catalog, k, ToUpper(codes[i + 1]), name);
      }
      if exists i, k :: 0 <= i < |codes| && Resolves(catalog, k, ToUpper(codes[i]), name) {
        var i, k :| 0 <= i < |codes| && Resolves(catalog, k, ToUpper(codes[i]), name);
        if i > 0 {
          assert codes[1..][i - 1] == codes[i];
          assert Resolves(catalog, k, ToUpper(codes[1..][i - 1]), name);
        } else {
          assert name in first;
        }
      }
    }
  }

  /** Some category holds one of the codes, upper-cased. */
  predicate AnyCodeHeld(codes: seq<string>, catalog: Catalog) {
    exists i, k :: 0 <= i < |codes| && 0 <= k < |catalog| && ToUpper(codes[i]) in catalog[k]
  }

  /** No name is produced exactly when no category holds any of the upper-cased codes. */
  lemma PermissionNamesEmpty(codes: seq<string>, catalog: Catalog)
    ensures PermissionNames(codes, catalog) == [] <==> !AnyCodeHeld(codes, catalog)
  {
    var names := PermissionNames(codes, catalog);
    if names != [] {
      PermissionNamesMembership(codes, catalog, names[0]);
      var i, k :| 0 <= i < |codes| && Resolves(catalog, k, ToUpper(codes[i]), names[0]);
      assert ToUpper(codes[i]) in catalog[k];
    }
    if AnyCodeHeld(codes, catalog) {
      var i, k :| 0 <= i < |codes| && 0 <= k < |catalog| && ToUpper(codes[i]) in catalog[k];
      var name := DisplayName(catalog[k][ToUpper(codes[i])]);
      assert Resolves(catalog, k, ToUpper(codes[i]), name);
      PermissionNamesMembership(codes, catalog, name);
    }
  }

  /**
   * The cell is "No Permissions" when no category holds any of the member's
   * upper-cased codes (in particular when there are no codes); otherwise it
   * is the names joined with ", ", and not empty.
   */
  lemma MemberPermissionsSpec(member: Member, catalog: Catalog)
    ensures !AnyCodeHeld(member.permissionCodes, catalog) ==>
      MemberPermissions(member, catalog) == NoPermissions
    ensures AnyCodeHeld(member.permissionCodes, catalog) ==>
      && MemberPermissions(member, catalog) == Join(Separator, PermissionNames(member.permissionCodes, catalog))
      && MemberPermissions(member, catalog) != ""
  {
    var names := PermissionNames(member.permissionCodes, catalog);
    PermissionNamesEmpty(member.permissionCodes, catalog);
    if names != [] {
      JoinStartsWithFirst(Separator, names);
      PermissionNamesMembership(member.permissionCodes, catalog, names[0]);
      var i, k :| 0 <= i < |member.permissionCodes|
        && Resolves(catalog, k, ToUpper(member.permissionCodes[i]), names[0]);
    }
  }

  /**
   * The member's codes are upper-cased before the lookup and the catalog keys
   * are not, so a key with an ASCII lower-case letter never equals a looked-up code.
   */
  lemma LowercaseKeyNeverMatches(key: string, code: string)
    requires HasLowerAscii(key)
    ensures key != ToUpper(code)
  {
    ToUpperHasNoLowercase(code);
  }

  /** Every key of every category has an ASCII lower-case letter. */
  predicate KeysHaveLowercase(catalog: Catalog) {
    forall k, key :: 0 <= k < |catalog| && key in catalog[k] ==> HasLowerAscii(key)
  }

  /** Against a catalog whose keys all have a lower-case letter, no code of any member resolves. */
  lemma LowercaseKeysNeverResolve(member: Member, catalog: Catalog)
    requires KeysHaveLowercase(catalog)
    ensures MemberPermissions(member, catalog) == NoPermissions
  {
    var codes := member.permissionCodes;
    forall i, k | 0 <= i < |codes| && 0 <= k < |catalog|
      ensures ToUpper(codes[i]) !in catalog[k]
    {
      if ToUpper(codes[i]) in catalog[k] {
        LowercaseKeyNeverMatches(ToUpper(codes[i]), codes[i]);
      }
    }
    MemberPermissionsSpec(member, catalog);
  }

  /** Codes that differ only in ASCII case resolve alike, because the member's codes are upper-cased. */
  lemma {:induction false} PermissionNamesIgnoreCase(a: seq<string>, b: seq<string>, catalog: Catalog)
    requires |a| == |b|
    requires forall i :: 0 <= i < |a| ==> ToUpper(a[i]) == ToUpper(b[i])
    ensures PermissionNames(a, catalog) == PermissionNames(b, catalog)
    decreases |a|
  {
    if a != [] {
      assert ToUpper(a[0]) == ToUpper(b[0]);
      PermissionNamesIgnoreCase(a[1..], b[1..], catalog);
    }
  }

  // ---------------------------------------------------------------------
  // Rows
  // ---------------------------------------------------------------------

  /** Member ids strictly ascending, as the store's sort by id lists them. */
  predicate MembersSortedById(members: seq<Member>) {
    forall i, j :: 0 <= i < j < |members| ==> members[i].id < members[j].id
  }

  predicate RowsSortedById(rows: seq<ReportRow>) {
    forall i, j :: 0 <= i < j < |rows| ==> rows[i].id < rows[j].id
  }

  /**
   * Builds one row per member, in the members' order: five fields copied,
   * the last visit, groups and permissions cells computed.
   */
  method SourceRecords(members: seq<Member>, catalog: Catalog) returns (rows: seq<ReportRow>)
    ensures |rows| == |members|
    ensures forall i :: 0 <= i < |members| ==>
      && rows[i].id == members[i].id
      && rows[i].firstName == members[i].firstName
      && rows[i].surname == members[i].surname
      && rows[i].email == members[i].email
      && rows[i].created == members[i].created
      && rows[i].lastVisited == LastVisitedStatus(members[i].lastVisited)
      && rows[i].groups == MemberGroups(members[i])
      && rows[i].permissions == MemberPermissions(members[i], catalog)
    ensures MembersSortedById(members) ==> RowsSortedById(rows)
  {
    rows := [];
    for i := 0 to |members|
      invariant |rows| == i
      invariant forall j :: 0 <= j < i ==>
        && rows[j].id == members[j].id
        && rows[j].firstName == members[j].firstName
        && rows[j].surname == members[j].surname
        && rows[j].email == members[j].email
        && rows[j].created == members[j].created
        && rows[j].lastVisited == LastVisitedStatus(members[j].lastVisited)
        && rows[j].groups == MemberGroups(members[j])
        && rows[j].permissions == MemberPermissions(members[j], catalog)
    {
      var member := members[i];
      var groups := GetMemberGroups(member);
      var permissions := GetMemberPermissions(member, catalog);
      var row := ReportRow(
        member.id, member.firstName, member.surname, member.email, member.created,
        LastVisitedStatus(member.lastVisited), groups, permissions);
      rows := rows + [row];
    }
  }

  /** A field value of a row record: the id is a number, the rest are text. */
  datatype FieldValue = Number(n: int) | Text(s: string)

  /** Looks a field of a row up by its key, as the grid and the export do. */
  function Field(row: ReportRow, key: string): Option<FieldValue> {
    match key
    case "ID" => Some(Number(row.id))
    case "FirstName" => Some(Text(row.firstName))
    case "Surname" => Some(Text(row.surname))
    case "Email" => Some(Text(row.email))
    case "Created" => Some(Text(row.created))
    case "LastVisited" => Some(Text(row.lastVisited))
    case "Groups" => Some(Text(row.groups))
    case "Permissions" => Some(Text(row.permissions))
    case _ => None
  }

  /** Every column and every sortable key names a field that each row has. */
  lemma ColumnsResolveOnRows(row: ReportRow)
    ensures forall i :: 0 <= i < |Columns()| ==> Field(row, Columns()[i].key).Some?
    ensures forall i :: 0 <= i < |SortColumns()| ==> Field(row, SortColumns()[i]).Some?
  {
  }

  // ---------------------------------------------------------------------
  // The report's documented cases
  // ---------------------------------------------------------------------

  /** A small catalog: ADMIN in one category, SITETREE_REORGANISE in two. */
  const ExampleCatalog: Catalog := [
    map["ADMIN" := Some("Full administrative rights")],
    map["SITETREE_REORGANISE" := Some("Change site structure")],
    map["SITETREE_REORGANISE" := Some("0")]
  ]

  /** The last-visited status of a string timestamp and of an empty one. */
  lemma LastVisitedExamples()
    ensures LastVisitedStatus(Some("2013-02-26 11:22:10")) == "2013-02-26 11:22:10"
    ensures LastVisitedStatus(Some("")) == Never && LastVisitedStatus(None) == Never
    ensures LastVisitedStatus(Some("0")) == Never
  {
  }

  /** No groups give the sentinel; one plain group comes back as it is. */
  lemma GroupExamples()
    ensures MemberGroups(Member(1, "", "", "", "", None, [], [])) == NoGroups
    ensures MemberGroups(Member(2, "", "", "", "", None, ["Group Test 01"], [])) == "Group Test 01"
  {
    SingleGroupVerbatim(Member(2, "", "", "", "", None, ["Group Test 01"], []));
  }

  /** Several plain groups are joined in the store's order. */
  lemma SeveralGroupsExample()
    ensures MemberGroups(Member(3, "", "", "", "", None, ["Admins", "Editors"], [])) == "Admins, Editors"
  {
    var member := Member(3, "", "", "", "", None, ["Admins", "Editors"], []);
    PlainGroupsJoined(member);
    assert member.groupTitles[1..] == ["Editors"];
  }

  /** A member without codes has no permissions. */
  lemma NoCodesExample()
    ensures MemberPermissions(Member(1, "", "", "", "", None, [], []), ExampleCatalog) == NoPermissions
  {
  }

  /** One code, written in lower case, resolves to its catalog name. */
  lemma OneCodeExample()
    ensures MemberPermissions(Member(2, "", "", "", "", None, [], ["admin"]), ExampleCatalog)
      == "Full administrative rights"
  {
    assert ToUpper("admin") == "ADMIN";
  }

  /** ADMIN is held by the first category only. */
  lemma AdminNames()
    ensures NamesForCode("ADMIN", ExampleCatalog) == ["Full administrative rights"]
  {
    var c := ExampleCatalog;
    assert c[1..][1..][1..] == [];
  }

  /** SITETREE_REORGANISE is held by the second and third categories. */
  lemma ReorganiseNames()
    ensures NamesForCode("SITETREE_REORGANISE", ExampleCatalog)
      == ["Change site structure", "Unknown"]
  {
    var c := ExampleCatalog;
    assert c[1..][1..][1..] == [];
  }

  /** A catalog in which each of ADMIN and SITETREE_REORGANISE is held once. */
  const SingleHolderCatalog: Catalog := [
    map["ADMIN" := Some("Full administrative rights")],
    map["SITETREE_REORGANISE" := Some("Change site structure")]
  ]

  /** Under the single-holder catalog, ADMIN gives one name. */
  lemma SingleHolderAdmin()
    ensures NamesForCode("ADMIN", SingleHolderCatalog) == ["Full administrative rights"]
  {
    assert SingleHolderCatalog[1..][1..] == [];
  }

  /** Under the single-holder catalog, SITETREE_REORGANISE gives one name. */
  lemma SingleHolderReorganise()
    ensures NamesForCode("SITETREE_REORGANISE", SingleHolderCatalog) == ["Change site structure"]
  {
    assert SingleHolderCatalog[1..][1..] == [];
  }

  /** Under the single-holder catalog, ADMIN and SITETREE_REORGANISE give one name each, in that order. */
  lemma SingleHolderNames()
    ensures PermissionNames(["ADMIN", "SITETREE_REORGANISE"], SingleHolderCatalog)
      == ["Full administrative rights", "Change site structure"]
  {
    var codes := ["ADMIN", "SITETREE_REORGANISE"];
    ToUpperFixesUpper(codes[0]);
    ToUpperFixesUpper(codes[1]);
    SingleHolderAdmin();
    SingleHolderReorganise();
    assert codes[1..][1..] == [];
  }

  /** Two codes, each held once, give a cell of their names in the member's order. */
  lemma TwoCodesExample()
    ensures MemberPermissions(Member(3, "", "", "", "", None, [], ["ADMIN", "SITETREE_REORGANISE"]),
                              SingleHolderCatalog)
      == "Full administrative rights" + ", " + "Change site structure"
  {
    SingleHolderNames();
    JoinPair(Separator, "Full administrative rights", "Change site structure");
  }

  /**
   * A code held by two categories gives two names, the second "Unknown"
   * because its name is "0"; they follow the first code's name.
   */
  lemma DuplicateHolderExample()
    ensures PermissionNames(["ADMIN", "SITETREE_REORGANISE"], ExampleCatalog)
      == ["Full administrative rights", "Change site structure", "Unknown"]
  {
    var c, codes := ExampleCatalog, ["ADMIN", "SITETREE_REORGANISE"];
    var rest := codes[1..];
    assert NamesForCode(ToUpper(codes[0]), c) == ["Full administrative rights"] by {
      ToUpperFixesUpper(codes[0]);
      AdminNames();
    }
    assert PermissionNames(rest, c) == ["Change site structure", "Unknown"] by {
      assert rest[1..] == [];
      ToUpperFixesUpper(codes[1]);
      ReorganiseNames();
    }
    assert PermissionNames(codes, c) == NamesForCode(ToUpper(codes[0]), c) + PermissionNames(rest, c);
  }

  /** A catalog key spelt with lower-case letters is never matched, not even by the identical code. */
  lemma MixedCaseKeyExample()
    ensures MemberPermissions(Member(5, "", "", "", "", None, [], ["CMS_ACCESS_SecurityAdmin"]),
                              [map["CMS_ACCESS_SecurityAdmin" := Some("Access to 'Security' section")]])
      == NoPermissions
  {
    var key := "CMS_ACCESS_SecurityAdmin";
    assert IsLowerAscii(key[12]);
    LowercaseKeysNeverResolve(Member(5, "", "", "", "", None, [], [key]),
                              [map[key := Some("Access to 'Security' section")]]);
  }

  /**
   * The sentinel text can also come from the catalog: a held code whose
   * entry is named "No Permissions" gives a cell equal to the sentinel.
   */
  lemma SentinelNamedEntryExample()
    ensures AnyCodeHeld(["X"], [map["X" := Some(NoPermissions)]])
    ensures MemberPermissions(Member(6, "", "", "", "", None, [], ["X"]), [map["X" := Some(NoPermissions)]])
      == NoPermissions
  {
    var c := [map["X" := Some(NoPermissions)]];
    ToUpperFixesUpper("X");
    assert ToUpper(["X"][0]) in c[0];
    assert c[1..] == [];
    assert NamesForCode("X", c) == [NoPermissions];
    assert ["X"][1..] == [];
  }

  /** A code no category holds resolves to nothing. */
  lemma UnheldCodeExample()
    ensures MemberPermissions(Member(4, "", "", "", "", None, [], ["CMS_ACCESS"]), ExampleCatalog)
      == NoPermissions
  {
    ToUpperFixesUpper("CMS_ACCESS");
  }
}
