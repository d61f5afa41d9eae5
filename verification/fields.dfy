/** The field extractor: the ordered list of labelled values built for a matched BioPax element
    from Pathway Commons traverse queries. */
module Fields {
  import opened Identifiers

  /** A Pathway Commons traverse query: the values reached from the element with the given full
      URI along the given property path. The HTTP request behind it is not modelled; the model
      takes it as a parameter. */
  type Fetch = (string, string) -> seq<string>

  /** The source's `getData`: the id is normalised to a full URI before the query is made. An id
      that mentions `http` is queried as it is; any other id is queried under the PC2 base. */
  function GetData(fetch: Fetch, id: string, path: string): (r: seq<string>)
    ensures Strings.Contains(id, "http") ==> r == fetch(id, path)
    ensures !Strings.Contains(id, "http") ==> r == fetch(Pc2Base + id, path)
  {
    fetch(Normalize(id), path)
  }

  /** Querying by an id or by its normalised form asks the same question. */
  lemma GetDataNormalized(fetch: Fetch, id: string, path: string)
    ensures GetData(fetch, Normalize(id), path) == GetData(fetch, id, path)
  {
    NormalizeIdempotent(id);
  }

  /** The labels of the extracted fields, declared in output order. */
  datatype Label =
    | DataSource | DisplayName | Comment | Names | StandardName
    | CellularLocation | Databases | DatabaseIds
  {
    /** The label text that appears in the output. */
    function Text(): string {
      match this
      case DataSource => "Data Source"
      case DisplayName => "Display Name"
      case Comment => "Comment"
      case Names => "Names"
      case StandardName => "Standard Name"
      case CellularLocation => "Cellular Location"
      case Databases => "Databases"
      case DatabaseIds => "Database IDs"
    }

    /** Position in the fixed output order. */
    function Rank(): nat {
      match this
      case DataSource => 0
      case DisplayName => 1
      case Comment => 2
      case Names => 3
      case StandardName => 4
      case CellularLocation => 5
      case Databases => 6
      case DatabaseIds => 7
    }

    /** The first five labels are left out of the output when their value is empty. */
    predicate Optional() {
      Rank() < 5
    }

    /** The traverse path an optional label is read from. */
    function Path(): string
      requires Optional()
    {
      match this
      case DataSource => "Entity/dataSource"
      case DisplayName => "SimplePhysicalEntity/entityReference/displayName"
      case Comment => "Entity/comment"
      case Names => "Named/name"
      case StandardName => "Named/standardName"
    }
  }

  /** Different labels print differently, so an output row names its field unambiguously. */
  lemma LabelTextsDistinct(l1: Label, l2: Label)
    ensures l1.Text() == l2.Text() <==> l1 == l2
  {
  }

  const CellularLocationPath := "Entity/cellularLocation"
  const VocabularyTermPath := "ControlledVocabulary/term"
  const ReferenceDatabasesPath := "SimplePhysicalEntity/entityReference/xref/db"
  const ReferenceIdsPath := "SimplePhysicalEntity/entityReference/xref/id"
  const EntityDatabasesPath := "Entity/xref/db"
  const EntityIdsPath := "Entity/xref/id"

  datatype Field = Field(key: Label, value: seq<string>)

  /** The cellular location: when the first value read is itself a URI (mentions `http`), the
      controlled-vocabulary term of that location is read instead, querying that URI as it is. */
  function CellLocation(id: string, fetch: Fetch): (r: seq<string>)
    ensures var location := GetData(fetch, id, CellularLocationPath);
      if |location| != 0 && Strings.Contains(location[0], "http") then
        r == fetch(location[0], VocabularyTermPath)
      else r == fetch(Normalize(id), CellularLocationPath)
  {
    var location := GetData(fetch, id, CellularLocationPath);
    if |location| != 0 && Strings.Contains(location[0], "http") then
      GetData(fetch, location[0], VocabularyTermPath)
    else
      location
  }

  /** The value each label stands for, read independently of how the list is assembled: an
      optional key's path, the cellular location, or a database column formed from the entity
      reference's cross-references followed by the entity's own. */
  function FieldValue(id: string, fetch: Fetch, key: Label): seq<string> {
    match key
    case CellularLocation => CellLocation(id, fetch)
    case Databases =>
      GetData(fetch, id, ReferenceDatabasesPath) + GetData(fetch, id, EntityDatabasesPath)
    case DatabaseIds =>
      GetData(fetch, id, ReferenceIdsPath) + GetData(fetch, id, EntityIdsPath)
    case _ => GetData(fetch, id, key.Path())
  }

  /** Some field of the list carries `key`. */
  predicate Has(fields: seq<Field>, key: Label) {
    exists i :: 0 <= i < |fields| && fields[i].key == key
  }

  /** Labels strictly increase in rank along the list: fixed order, no label twice. */
  predicate Ascending(fields: seq<Field>) {
    forall i, j :: 0 <= i < j < |fields| ==> fields[i].key.Rank() < fields[j].key.Rank()
  }

  /** Every label in the list ranks below `bound`. */
  predicate RanksBelow(fields: seq<Field>, bound: nat) {
    forall i :: 0 <= i < |fields| ==> fields[i].key.Rank() < bound
  }

  /** Every field carries the value its label stands for. */
  predicate Faithful(fields: seq<Field>, id: string, fetch: Fetch) {
    forall i :: 0 <= i < |fields| ==> fields[i].value == FieldValue(id, fetch, fields[i].key)
  }

  /** The conditional push of `buildBioPaxTree`: the field is appended only when its value is non-empty. */
  function PushIfNonEmpty(fields: seq<Field>, key: Label, value: seq<string>): seq<Field> {
    if |value| != 0 then fields + [Field(key, value)] else fields
  }

  /** A conditional push keeps the order when the label ranks above everything already present,
      and keeps every field faithful when the value pushed is the label's own. */
  lemma PushIfNonEmptyKeeps(fields: seq<Field>, key: Label, value: seq<string>, id: string, fetch: Fetch)
    ensures var r := PushIfNonEmpty(fields, key, value);
      Ascending(fields) && RanksBelow(fields, key.Rank()) ==> Ascending(r) && RanksBelow(r, key.Rank() + 1)
    ensures var r := PushIfNonEmpty(fields, key, value);
      Faithful(fields, id, fetch) && value == FieldValue(id, fetch, key) ==> Faithful(r, id, fetch)
  {
    var r := PushIfNonEmpty(fields, key, value);
    assert forall i :: 0 <= i < |fields| ==> r[i] == fields[i];
  }

  /** A conditional push adds the label exactly when the value is non-empty. */
  lemma PushIfNonEmptyHas(fields: seq<Field>, key: Label, value: seq<string>, l: Label)
    ensures Has(PushIfNonEmpty(fields, key, value), l) <==> Has(fields, l) || (l == key && |value| != 0)
  {
    var r := PushIfNonEmpty(fields, key, value);
    if Has(fields, l) {
      var i :| 0 <= i < |fields| && fields[i].key == l;
      assert r[i] == fields[i];
    }
    if l == key && |value| != 0 {
      assert r[|fields|].key == key;
    }
  }

  /** Every field of the list has an optional label and a non-empty value. */
  predicate Filled(fields: seq<Field>) {
    forall i :: 0 <= i < |fields| ==> fields[i].key.Optional() && |fields[i].value| != 0
  }

  /** A conditional push of an optional label keeps every field optional and non-empty. */
  lemma PushIfNonEmptyFilled(fields: seq<Field>, key: Label, value: seq<string>)
    requires key.Optional() && Filled(fields)
    ensures Filled(PushIfNonEmpty(fields, key, value))
  {
    var r := PushIfNonEmpty(fields, key, value);
    assert forall i :: 0 <= i < |fields| ==> r[i] == fields[i];
  }

  /** The source's `buildBioPaxTree`: the five optional fields, each only when non-empty, then the
      cellular location and the two database columns, which are always present. So the list holds
      three to eight fields, and every field before the last three is optional and non-empty. */
  function BuildBioPaxTree(id: string, fetch: Fetch): (r: seq<Field>)
    ensures 3 <= |r| <= 8
    ensures Filled(r[..|r| - 3])
    ensures r[|r| - 3].key == CellularLocation && r[|r| - 2].key == Databases && r[|r| - 1].key == DatabaseIds
  {
    var dataSource := GetData(fetch, id, DataSource.Path());
    var displayName := GetData(fetch, id, DisplayName.Path());
    var comment := GetData(fetch, id, Comment.Path());
    var names := GetData(fetch, id, Names.Path());
    var standardName := GetData(fetch, id, StandardName.Path());
    var cellLocation := CellLocation(id, fetch);
    var referenceDatabases := GetData(fetch, id, ReferenceDatabasesPath);
    var referenceIds := GetData(fetch, id, ReferenceIdsPath);
    var entityDatabases := GetData(fetch, id, EntityDatabasesPath);
    var entityIds := GetData(fetch, id, EntityIdsPath);
    var r1 := PushIfNonEmpty([], DataSource, dataSource);
    var r2 := PushIfNonEmpty(r1, DisplayName, displayName);
    var r3 := PushIfNonEmpty(r2, Comment, comment);
    var r4 := PushIfNonEmpty(r3, Names, names);
    var r5 := PushIfNonEmpty(r4, StandardName, standardName);
    PushIfNonEmptyFilled([], DataSource, dataSource);
    PushIfNonEmptyFilled(r1, DisplayName, displayName);
    PushIfNonEmptyFilled(r2, Comment, comment);
    PushIfNonEmptyFilled(r3, Names, names);
    PushIfNonEmptyFilled(r4, StandardName, standardName);
    // The location is pushed whenever it is an array, and it always is. The database guard
    // compares the entity databases array itself with 0, which never holds, so both database
    // columns are always pushed.
    var r := r5 + [Field(CellularLocation, cellLocation),
                   Field(Databases, referenceDatabases + entityDatabases),
                   Field(DatabaseIds, referenceIds + entityIds)];
    assert r[..|r| - 3] == r5;
    r
  }

  /** The list splits into the optional fields, which are ordered, faithful and present exactly
      when non-empty, followed by the three fields that are always there. */
  lemma BuildBioPaxTreeShape(id: string, fetch: Fetch) returns (optional: seq<Field>, tail: seq<Field>)
    ensures BuildBioPaxTree(id, fetch) == optional + tail
    ensures Ascending(optional) && RanksBelow(optional, 5) && Faithful(optional, id, fetch)
    ensures forall l :: Has(optional, l) <==> l.Optional() && |FieldValue(id, fetch, l)| != 0
    ensures tail == [Field(CellularLocation, FieldValue(id, fetch, CellularLocation)),
                     Field(Databases, FieldValue(id, fetch, Databases)),
                     Field(DatabaseIds, FieldValue(id, fetch, DatabaseIds))]
  {
    var r1 := PushIfNonEmpty([], DataSource, FieldValue(id, fetch, DataSource));
    PushIfNonEmptyKeeps([], DataSource, FieldValue(id, fetch, DataSource), id, fetch);
    var r2 := PushIfNonEmpty(r1, DisplayName, FieldValue(id, fetch, DisplayName));
    PushIfNonEmptyKeeps(r1, DisplayName, FieldValue(id, fetch, DisplayName), id, fetch);
    var r3 := PushIfNonEmpty(r2, Comment, FieldValue(id, fetch, Comment));
    PushIfNonEmptyKeeps(r2, Comment, FieldValue(id, fetch, Comment), id, fetch);
    var r4 := PushIfNonEmpty(r3, Names, FieldValue(id, fetch, Names));
    PushIfNonEmptyKeeps(r3, Names, FieldValue(id, fetch, Names), id, fetch);
    optional := PushIfNonEmpty(r4, StandardName, FieldValue(id, fetch, StandardName));
    PushIfNonEmptyKeeps(r4, StandardName, FieldValue(id, fetch, StandardName), id, fetch);
    tail := [Field(CellularLocation, FieldValue(id, fetch, CellularLocation)),
             Field(Databases, FieldValue(id, fetch, Databases)),
             Field(DatabaseIds, FieldValue(id, fetch, DatabaseIds))];
    forall l ensures Has(optional, l) <==> l.Optional() && |FieldValue(id, fetch, l)| != 0 {
      PushIfNonEmptyHas([], DataSource, FieldValue(id, fetch, DataSource), l);
      PushIfNonEmptyHas(r1, DisplayName, FieldValue(id, fetch, DisplayName), l);
      PushIfNonEmptyHas(r2, Comment, FieldValue(id, fetch, Comment), l);
      PushIfNonEmptyHas(r3, Names, FieldValue(id, fetch, Names), l);
      PushIfNonEmptyHas(r4, StandardName, FieldValue(id, fetch, StandardName), l);
    }
  }

  /** What the extracted list holds: labels in the fixed order with none repeated, each field
      carrying the value of its own label, an optional label present exactly when its value is
      non-empty, and the last three labels always present, ending the list. The database columns
      each join their two sources, so each is as long as its two sources together. */
  lemma BuildBioPaxTreeContents(id: string, fetch: Fetch)
    ensures var r := BuildBioPaxTree(id, fetch);
      && Ascending(r)
      && Faithful(r, id, fetch)
      && (forall l: Label :: Has(r, l) <==> !l.Optional() || |FieldValue(id, fetch, l)| != 0)
      && r[|r| - 3].key == CellularLocation
      && r[|r| - 2].key == Databases
      && r[|r| - 1].key == DatabaseIds
      && |r[|r| - 2].value| ==
         |GetData(fetch, id, ReferenceDatabasesPath)| + |GetData(fetch, id, EntityDatabasesPath)|
      && |r[|r| - 1].value| ==
         |GetData(fetch, id, ReferenceIdsPath)| + |GetData(fetch, id, EntityIdsPath)|
  {
    var r := BuildBioPaxTree(id, fetch);
    var r5, tail := BuildBioPaxTreeShape(id, fetch);
    ConcatAscending(r5, tail, 5);
    ConcatFaithful(r5, tail, id, fetch);
    assert forall l: Label :: Has(r, l) <==> !l.Optional() || |FieldValue(id, fetch, l)| != 0 by {
      BuildBioPaxTreePresence(r, r5, tail);
    }
    assert r[|r| - 3] == tail[0] && r[|r| - 2] == tail[1] && r[|r| - 1] == tail[2];
  }

  /** The output rows of the list are named by label texts, and no two rows share a name. */
  lemma BuildBioPaxTreeNamesDistinct(id: string, fetch: Fetch)
    ensures var r := BuildBioPaxTree(id, fetch);
      forall i, j :: 0 <= i < j < |r| ==> r[i].key.Text() != r[j].key.Text()
  {
    var r := BuildBioPaxTree(id, fetch);
    BuildBioPaxTreeContents(id, fetch);
    forall i, j | 0 <= i < j < |r|
      ensures r[i].key.Text() != r[j].key.Text()
    {
      LabelTextsDistinct(r[i].key, r[j].key);
    }
  }

  /** Two ordered lists, the first ranking below `bound` and the second not, stay ordered when
      concatenated. */
  lemma ConcatAscending(a: seq<Field>, b: seq<Field>, bound: nat)
    requires Ascending(a) && RanksBelow(a, bound) && Ascending(b)
    requires forall i :: 0 <= i < |b| ==> b[i].key.Rank() >= bound
    ensures Ascending(a + b)
  {
    var r := a + b;
    forall i, j | 0 <= i < j < |r|
      ensures r[i].key.Rank() < r[j].key.Rank()
    {
      if j >= |a| {
        assert r[j] == b[j - |a|];
        if i < |a| {
          assert r[i] == a[i];
        } else {
          assert r[i] == b[i - |a|];
        }
      } else {
        assert r[i] == a[i] && r[j] == a[j];
      }
    }
  }

  /** Concatenating two faithful lists gives a faithful list. */
  lemma ConcatFaithful(a: seq<Field>, b: seq<Field>, id: string, fetch: Fetch)
    requires Faithful(a, id, fetch) && Faithful(b, id, fetch)
    ensures Faithful(a + b, id, fetch)
  {
    var r := a + b;
    forall i | 0 <= i < |r|
      ensures r[i].value == FieldValue(id, fetch, r[i].key)
    {
      if i < |a| {
        assert r[i] == a[i];
      } else {
        assert r[i] == b[i - |a|];
      }
    }
  }

  /** Appending the three fixed fields adds exactly the three non-optional labels. */
  lemma BuildBioPaxTreePresence(r: seq<Field>, optional: seq<Field>, tail: seq<Field>)
    requires r == optional + tail
    requires |tail| == 3 && tail[0].key == CellularLocation && tail[1].key == Databases && tail[2].key == DatabaseIds
    ensures forall l :: Has(r, l) <==> Has(optional, l) || !l.Optional()
  {
    assert forall i :: |optional| <= i < |r| ==> !r[i].key.Optional() by {
      forall i | |optional| <= i < |r| ensures !r[i].key.Optional() {
        assert r[i] == tail[i - |optional|];
      }
    }
    forall l: Label
      ensures Has(r, l) <==> Has(optional, l) || !l.Optional()
    {
      if Has(optional, l) {
        var i :| 0 <= i < |optional| && optional[i].key == l;
        assert r[i] == optional[i];
      }
      if Has(r, l) && l.Optional() {
        var i :| 0 <= i < |r| && r[i].key == l;
        assert i < |optional|;
        assert r[i] == optional[i];
      }
      if !l.Optional() {
        var k := if l == CellularLocation then 0 else if l == Databases then 1 else 2;
        assert r[|optional| + k] == tail[k];
      }
    }
  }
}
