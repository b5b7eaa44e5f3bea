/** The query layer over the `halls` table: `addHall`, `deleteHallByName` and
    `updateHall`. Each issues one statement and turns the statement's outcome
    into a returned value or a thrown error, of which callers only read the
    message. These functions describe each operation on a snapshot of the
    database; the `Store` class performs them in place. */
module Queries {
  import opened Basics
  import opened Text
  import opened Js
  import opened Schema
  import opened Database

  // ---------------------------------------------------------------------------
  // addHall

  /** What the insert resolves to: the rows it returned (none, for the insert
      has no `returning` clause) and the number of rows it wrote. */
  datatype InsertResult = InsertResult(rows: seq<Hall>, count: nat)

  const AddHallErrorPrefix := "Error adding hall: "

  /** `addHall(hallData)`: insert the record as given; any failure is rethrown
      with its message behind `AddHallErrorPrefix` and adds nothing. A record
      that names its own id leaves the sequence alone. */
  function AddHall(s: State, hallData: HallInput): (r: (Thrown<InsertResult>, State))
    ensures r.0.Returned? ==> r.0.value == InsertResult([], 1)
    ensures r.0.Threw? ==> r.1.tables == s.tables && AddHallErrorPrefix <= r.0.message
    ensures !hallData.hallId.Undefined? ==> r.1.nextHallId == s.nextHallId
  {
    var u := ExecInsertHall(s, hallData);
    (AddHallReturn(u.1), u.0)
  }

  /** What `addHall` returns or throws for the insert's outcome. */
  function AddHallReturn(o: Outcome): (r: Thrown<InsertResult>)
    ensures r.Returned? <==> o.Count?
    ensures r.Threw? ==> r.message == AddHallErrorPrefix + Message(o.error)
    ensures r.Returned? ==> r.value.rows == [] && r.value.count == o.rows
  {
    match o
    case Count(n) => Returned(InsertResult([], n))
    case Failed(e) => Threw(AddHallErrorPrefix + Message(e))
  }

  /** `addHall` either returns, having added exactly one hall under the id
      the record gives (or else the one drawn from the sequence), an id and a
      name no hall had; or throws the database's message behind the prefix.
      Either way the database stays valid. */
  lemma AddHallEffect(s: State, hallData: HallInput)
    requires Valid(s)
    ensures var (r, s') := AddHall(s, hallData);
      && Valid(s')
      && (r.Returned? ==>
            && InsertKey(s, hallData).Some?
            && var k := InsertKey(s, hallData).value;
            && k !in s.tables.halls
            && s'.nextHallId == (if hallData.hallId.Undefined? then s.nextHallId + 1 else s.nextHallId)
            && s'.tables == s.tables.(halls := s.tables.halls[k := s'.tables.halls[k]])
            && s'.tables.halls[k].hallFacility == ToText(hallData.hallFacility)
            && s'.tables.halls[k].hallName == Fitted(HallName, ToText(hallData.hallName))
            && forall k' | k' in s.tables.halls ::
                 s.tables.halls[k'].hallName != s'.tables.halls[k].hallName)
      && (r.Threw? ==> exists e :: r.message == AddHallErrorPrefix + Message(e))
  {
    InsertHallKeepsValid(s, hallData);
    var o := ExecInsertHall(s, hallData).1;
    if o.Failed? {
      assert AddHall(s, hallData).0.message == AddHallErrorPrefix + Message(o.error);
    } else {
      AddHallAdded(s, hallData);
    }
  }

  /** The hall `addHall` adds when it returns. */
  lemma AddHallAdded(s: State, hallData: HallInput)
    requires ExecInsertHall(s, hallData).1.Count?
    ensures var s' := AddHall(s, hallData).1;
      && InsertKey(s, hallData).Some?
      && var k := InsertKey(s, hallData).value;
      && k !in s.tables.halls
      && s'.nextHallId == (if hallData.hallId.Undefined? then s.nextHallId + 1 else s.nextHallId)
      && s'.tables == s.tables.(halls := s.tables.halls[k := s'.tables.halls[k]])
      && s'.tables.halls[k].hallFacility == ToText(hallData.hallFacility)
      && s'.tables.halls[k].hallName == Fitted(HallName, ToText(hallData.hallName))
      && forall k' | k' in s.tables.halls ::
           s.tables.halls[k'].hallName != s'.tables.halls[k].hallName
  {
    InsertHallEffect(s, hallData);
  }

  /** Adding a hall whose name (as stored) another hall already has is
      refused, whatever else the record holds. */
  lemma AddHallDuplicateName(s: State, hallData: HallInput, k: int)
    requires Valid(s) && k in s.tables.halls
    requires hallData.hallName.Str? && hallData.hallName.s == s.tables.halls[k].hallName
    ensures AddHall(s, hallData).0.Threw?
    ensures AddHall(s, hallData).1.tables == s.tables
  {
    InsertDuplicateName(s, hallData, k);
  }

  // ---------------------------------------------------------------------------
  // deleteHallByName

  function DeletedMessage(hallId: JsValue): string
  {
    "Hall \"" + ToText(hallId) + "\" has been deleted."
  }

  function NoHallWithIdMessage(hallId: JsValue): string
  {
    "No hall found" + " with the id \"" + ToText(hallId) + "\""
  }

  /** `deleteHallByName(hallId)`: delete the hall with that id; no row
      deleted is an error naming the id; database errors are rethrown. Only a
      deletion changes the database, and never the sequence. */
  function DeleteHallByName(s: State, hallId: JsValue): (r: (Thrown<string>, State))
    ensures r.1.nextHallId == s.nextHallId
    ensures r.0.Threw? ==> r.1 == s
    ensures r.0.Returned? ==> r.0.value == DeletedMessage(hallId)
    ensures hallId.Undefined? ==> r.0 == Threw(Message(UndefinedParameter))
  {
    var u := ExecDeleteHall(s.tables, hallId);
    (DeleteHallReturn(u.1, hallId), s.(tables := u.0))
  }

  /** What `deleteHallByName` returns or throws for the delete's outcome. */
  function DeleteHallReturn(o: Outcome, hallId: JsValue): (r: Thrown<string>)
    ensures r.Returned? <==> o.Count? && o.rows != 0
    ensures r.Returned? ==> r.value == DeletedMessage(hallId)
    ensures r.Threw? ==> r.message == if o.Failed? then Message(o.error) else NoHallWithIdMessage(hallId)
  {
    match o
    case Failed(e) => Threw(Message(e))
    case Count(n) => if n == 0 then Threw(NoHallWithIdMessage(hallId)) else Returned(DeletedMessage(hallId))
  }

  /** Deleting an id that names a hall removes exactly that hall (with its
      reservations by cascade) and returns a message naming the id; an id that
      names no hall throws "No hall found with the id …"; either way the
      database stays valid and the sequence is untouched. */
  lemma DeleteHallByNameEffect(s: State, hallId: JsValue)
    requires Valid(s)
    ensures var (r, s') := DeleteHallByName(s, hallId);
      && Valid(s')
      && s'.nextHallId == s.nextHallId
      && (r.Returned? <==> exists k | k in s.tables.halls :: BindKey(hallId) == Ok(Some(k)))
      && (r.Returned? ==>
            && r.value == DeletedMessage(hallId)
            && s'.tables == DeleteHall(s.tables, BindKey(hallId).value.value)
            && s'.tables.halls == s.tables.halls - {BindKey(hallId).value.value})
      && (r.Threw? ==> s'.tables == s.tables)
      && (r.Threw? && BindKey(hallId).Ok? ==> r.message == NoHallWithIdMessage(hallId))
  {
    DeleteHallKeepsValid(s, hallId);
    var (t', o) := ExecDeleteHall(s.tables, hallId);
    if o == Count(1) {
      DeleteHallCascades(s.tables, BindKey(hallId).value.value);
    }
  }

  /** A second delete of the same id fails with "No hall found with the id …"
      and changes nothing. */
  lemma DeleteHallByNameTwice(s: State, hallId: JsValue)
    requires DeleteHallByName(s, hallId).0.Returned?
    ensures var s' := DeleteHallByName(s, hallId).1;
      DeleteHallByName(s', hallId) == (Threw(NoHallWithIdMessage(hallId)), s')
  {
    var (t', o) := ExecDeleteHall(s.tables, hallId);
    assert o == Count(1);
    DeleteHallTwice(s.tables, hallId);
  }

  // ---------------------------------------------------------------------------
  // updateHall

  /** The column names `updateHall` accepts, in the order its message lists them. */
  const ValidColumns: seq<string> := ["hallName", "hallFacility", "capacity", "type", "primaryInCharge"]

  /** The column `columnName` names, if it is one of `ValidColumns`
      (`validColumns.includes(columnName)`: only a string can match). */
  function ColumnNamed(columnName: JsValue): (r: Option<HallColumn>)
    ensures r.Some? <==> columnName.Str? && columnName.s in ValidColumns
    ensures r.Some? ==> Property(r.value) == columnName.s
  {
    if !columnName.Str? then None
    else if columnName.s == "hallName" then Some(HallName)
    else if columnName.s == "hallFacility" then Some(HallFacility)
    else if columnName.s == "capacity" then Some(Capacity)
    else if columnName.s == "type" then Some(HallType)
    else if columnName.s == "primaryInCharge" then Some(PrimaryInCharge)
    else None
  }

  /** Every column is named by its property name, and by nothing else. */
  lemma ColumnNamedExactly(c: HallColumn, v: JsValue)
    ensures ColumnNamed(v) == Some(c) <==> v == Str(Property(c))
  {
  }

  function InvalidColumnMessage(columnName: JsValue): string
  {
    "Invalid column name: " + ToText(columnName) + ". Valid columns are: " + Join(ValidColumns, ", ")
  }

  function NoHallToUpdateMessage(hallId: JsValue): string
  {
    "No hall found with ID \"" + ToText(hallId) + "\" to update."
  }

  function UpdatedMessage(hallId: JsValue): string
  {
    "Hall with ID \"" + ToText(hallId) + "\" has been updated."
  }

  /** `updateHall(hallId, columnName, newValue)`: reject a column outside the
      allow-list before touching the table, then set that one column of the
      hall with that id; no row updated is an error naming the id. Only a
      returned update changes the database, and never the sequence. */
  function UpdateHall(s: State, hallId: JsValue, columnName: JsValue, newValue: JsValue): (r: (Thrown<string>, State))
    ensures ColumnNamed(columnName).None? ==> r == (Threw(InvalidColumnMessage(columnName)), s)
    ensures r.1.nextHallId == s.nextHallId
    ensures r.0.Threw? ==> r.1 == s
    ensures r.0.Returned? ==> r.0.value == UpdatedMessage(hallId)
    ensures ColumnNamed(columnName).Some? && newValue.Undefined? ==> r.0 == Threw(Message(NoValuesToSet))
  {
    match ColumnNamed(columnName)
    case None => (Threw(InvalidColumnMessage(columnName)), s)
    case Some(c) =>
      var u := ExecUpdateHall(s.tables, c, newValue, hallId);
      (UpdateHallReturn(u.1, hallId), s.(tables := u.0))
  }

  /** What `updateHall` returns or throws for the update's outcome. */
  function UpdateHallReturn(o: Outcome, hallId: JsValue): (r: Thrown<string>)
    ensures r.Returned? <==> o.Count? && o.rows != 0
    ensures r.Returned? ==> r.value == UpdatedMessage(hallId)
    ensures r.Threw? ==> r.message == if o.Failed? then Message(o.error) else NoHallToUpdateMessage(hallId)
  {
    match o
    case Failed(e) => Threw(Message(e))
    case Count(n) => if n == 0 then Threw(NoHallToUpdateMessage(hallId)) else Returned(UpdatedMessage(hallId))
  }

  /** A column outside the allow-list is refused with the invalid-column
      message whether or not the hall exists, and nothing changes; and that
      message is thrown for no other reason. */
  lemma UpdateHallInvalidColumn(s: State, hallId: JsValue, columnName: JsValue, newValue: JsValue)
    ensures UpdateHall(s, hallId, columnName, newValue).0 == Threw(InvalidColumnMessage(columnName))
        <==> ColumnNamed(columnName).None?
    ensures ColumnNamed(columnName).None? ==> UpdateHall(s, hallId, columnName, newValue).1 == s
  {
    var r := UpdateHall(s, hallId, columnName, newValue).0;
    if ColumnNamed(columnName).Some? && r.Threw? {
      var m := InvalidColumnMessage(columnName);
      assert m[0] == 'I';
      var o := ExecUpdateHall(s.tables, ColumnNamed(columnName).value, newValue, hallId).1;
      assert r == UpdateHallReturn(o, hallId);
      if o.Failed? {
        MessageStartsLowerOrOther(o.error);
      } else {
        assert r.message[0] == 'N';
      }
    }
  }

  /** No database message starts with a capital `I`. */
  lemma MessageStartsLowerOrOther(e: DbError)
    ensures |Message(e)| > 0 && Message(e)[0] != 'I'
  {
    match e
    case NoValuesToSet =>
    case UndefinedParameter =>
      FirstOfConcat("UNDEFINED_VALUE: ", "Undefined values are not allowed");
    case InvalidInteger(t) =>
      FirstOfConcat("invalid input syntax ", "for type integer: \"" + t + "\"");
    case IntegerOutOfRange(t) =>
      FirstOfConcat("value \"", t + "\" is out of range " + "for type integer");
    case ValueTooLong(n) =>
      FirstOfConcat("value too long for type ", "character varying(" + NatToText(n) + ")");
    case NotNullViolation(c) =>
      FirstOfConcat("null value in column \"", c + "\" of relation \"halls\" " + "violates not-null constraint");
    case UniqueViolation(c) =>
      FirstOfConcat("duplicate key value ", "violates unique constraint \"" + c + "\"");
    case SequenceExhausted =>
      FirstOfConcat("nextval: reached maximum ", "value of sequence " + "\"halls_hall_id_seq\" (2147483647)");
  }

  lemma FirstOfConcat(a: string, b: string)
    requires |a| > 0
    ensures |a + b| > 0 && (a + b)[0] == a[0]
  {
  }

  /** An update never adds or removes a hall and never changes a hall's key:
      `hallId` is not among the columns it may set. */
  lemma UpdateHallKeepsKeys(s: State, hallId: JsValue, columnName: JsValue, newValue: JsValue)
    ensures var s' := UpdateHall(s, hallId, columnName, newValue).1;
      && s'.tables.halls.Keys == s.tables.halls.Keys
      && forall k | k in s.tables.halls :: s'.tables.halls[k].hallId == s.tables.halls[k].hallId
  {
    var c := ColumnNamed(columnName);
    if c.Some? {
      UpdateHallSameKeys(s.tables, c.value, newValue, hallId);
    }
  }

  /** A successful update stored the new value, as the column reads it, in
      the named column of the hall with that id, and changed nothing else:
      every other hall and column, every other table and the sequence are as
      before. */
  lemma UpdateHallChangesOneColumn(s: State, hallId: JsValue, columnName: JsValue, newValue: JsValue)
    requires UpdateHall(s, hallId, columnName, newValue).0.Returned?
    ensures ColumnNamed(columnName).Some?
    ensures BindKey(hallId).Ok? && BindKey(hallId).value.Some?
    ensures var (r, s') := UpdateHall(s, hallId, columnName, newValue);
      var k := BindKey(hallId).value.value;
      var c := ColumnNamed(columnName).value;
      && r.value == UpdatedMessage(hallId)
      && k in s.tables.halls && k in s'.tables.halls
      && s' == s.(tables := s.tables.(halls := s.tables.halls[k := s'.tables.halls[k]]))
      && (forall c' | c' != c :: Column(s'.tables.halls[k], c') == Column(s.tables.halls[k], c'))
      && CellWithin(c, Column(s'.tables.halls[k], c))
      && StoredFrom(c, Column(s'.tables.halls[k], c), newValue)
  {
    var c := ColumnNamed(columnName).value;
    Database.UpdateHallApplied(s.tables, c, newValue, hallId);
  }

  /** An update of an id that names no hall changes nothing. Provided the
      column is valid and both values are readable, it throws "No hall found
      with ID … to update.", unless the value is too long for the column:
      then it throws the database's message for that. */
  lemma UpdateHallMissing(s: State, hallId: JsValue, columnName: JsValue, newValue: JsValue, k: int)
    requires ColumnNamed(columnName).Some?
    requires !newValue.Undefined? && BindValue(ColumnNamed(columnName).value, newValue).Ok?
    requires BindKey(hallId) == Ok(Some(k)) && k !in s.tables.halls
    ensures var c := ColumnNamed(columnName).value;
      var cast := CastLength(c, BindValue(c, newValue).value);
      UpdateHall(s, hallId, columnName, newValue)
        == (Threw(if cast.Ok? then NoHallToUpdateMessage(hallId) else Message(cast.error)), s)
  {
    var c := ColumnNamed(columnName).value;
    UpdateMissingHall(s.tables, c, newValue, hallId, k);
    var o := ExecUpdateHall(s.tables, c, newValue, hallId).1;
    assert UpdateHall(s, hallId, columnName, newValue) == (UpdateHallReturn(o, hallId), s);
  }

  /** Setting a hall's capacity to a 32-bit number returns the update
      message, and reading the hall back gives that capacity. */
  lemma UpdateCapacityRoundTrip(s: State, k: int, n: int)
    requires k in s.tables.halls && IsInt32(k) && IsInt32(n)
    ensures var (r, s') := UpdateHall(s, Num(k), Str("capacity"), Num(n));
      && r == Returned(UpdatedMessage(Num(k)))
      && k in s'.tables.halls && s'.tables.halls[k].capacity == n
      && s'.tables.halls == s.tables.halls[k := s.tables.halls[k].(capacity := n)]
  {
    ColumnNamedExactly(Capacity, Str("capacity"));
    BindKeyOfInt(k);
    UpdateCapacity(s.tables, Num(k), k, n);
  }

  /** An update keeps the database valid. */
  lemma UpdateHallKeepsValid(s: State, hallId: JsValue, columnName: JsValue, newValue: JsValue)
    requires Valid(s)
    ensures Valid(UpdateHall(s, hallId, columnName, newValue).1)
  {
    var c := ColumnNamed(columnName);
    if c.Some? {
      UpdateHallKeepsConsistent(s.tables, c.value, newValue, hallId);
      UpdateHallKeepsKeys(s, hallId, columnName, newValue);
    }
  }
}
