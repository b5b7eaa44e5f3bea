/** The behaviour of the database, reached through the query builder and the
    driver, for the three statements the query layer issues against `halls`:
    one insert, one single-column update, and one delete by key. Every value is
    sent as text and converted by the database to the column's type; the
    statement's `count` is the number of rows it touched. */
module Database {
  import opened Basics
  import opened Text
  import opened Js
  import opened Schema

  // ---------------------------------------------------------------------------
  // errors

  /** The failures a statement can report. The first two come from the client
      libraries before anything reaches the database. */
  datatype DbError =
    | NoValuesToSet                     // the query builder: an update whose only value is undefined
    | UndefinedParameter                // the driver: an undefined parameter
    | InvalidInteger(input: string)     // integer input that is not a number
    | IntegerOutOfRange(input: string)  // integer input outside 32 bits
    | ValueTooLong(limit: nat)          // varchar(limit) assignment
    | NotNullViolation(column: string)
    | UniqueViolation(constraint: string)
    | SequenceExhausted                 // the hall_id sequence has reached its maximum

  const HallsPrimaryKey := "halls_pkey"
  const UniqueHallName := "unique_hall_name"

  /** The error's message, which is all the query layer passes on. (The
      longer texts are written as short pieces, which keeps reasoning about
      their characters cheap.) */
  function Message(e: DbError): string
  {
    match e
    case NoValuesToSet => "No values to set"
    case UndefinedParameter => "UNDEFINED_VALUE: " + "Undefined values are not allowed"
    case InvalidInteger(s) => "invalid input syntax " + "for type integer: \"" + s + "\""
    case IntegerOutOfRange(s) => "value \"" + s + "\" is out of range " + "for type integer"
    case ValueTooLong(n) => "value too long for type " + "character varying(" + NatToText(n) + ")"
    case NotNullViolation(c) =>
      "null value in column \"" + c + "\" of relation \"halls\" " + "violates not-null constraint"
    case UniqueViolation(c) => "duplicate key value " + "violates unique constraint \"" + c + "\""
    case SequenceExhausted =>
      "nextval: reached maximum " + "value of sequence " + "\"halls_hall_id_seq\" (2147483647)"
  }

  datatype Result<T> = Ok(value: T) | Fail(error: DbError)

  /** What a statement reports: the number of rows it touched, or an error. */
  datatype Outcome = Count(rows: nat) | Failed(error: DbError)

  /** The database as the query layer sees it: the tables and the next value
      of the `halls.hall_id` sequence. */
  datatype State = State(tables: Tables, nextHallId: int)

  /** The schema's constraints hold and the sequence has a value to give or
      has reached its end. (It need not be ahead of every hall id: an insert
      may give its own id.) */
  predicate Valid(s: State)
  {
    && Consistent(s.tables)
    && 1 <= s.nextHallId <= Int32Max + 1
  }

  // ---------------------------------------------------------------------------
  // integer input

  /** White space as integer input skips it. */
  predicate IsSpace(c: char)
  {
    c == ' ' || c == '\t' || c == '\n' || c == '\r' || c == '\U{000B}' || c == '\U{000C}'
  }

  /** `s` without its leading white space. */
  function SkipSpaces(s: string): (t: string)
    ensures |t| <= |s| && t == s[|s| - |t|..]
    ensures |t| > 0 ==> !IsSpace(t[0])
  {
    if |s| > 0 && IsSpace(s[0]) then SkipSpaces(s[1..]) else s
  }

  /** Integer input: optional white space, an optional sign, at least one
      digit, optional white space and nothing more; the value must fit in 32
      bits. As in PostgreSQL up to version 15, digits whose magnitude exceeds
      2147483648 are out of range before any trailing text is looked at, and
      a positive 2147483648 is out of range only after the trailing text has
      been accepted. */
  function Int4In(input: string): (r: Result<int>)
    ensures r.Ok? ==> IsInt32(r.value)
  {
    Int4Signed(input, SkipSpaces(input))
  }

  /** The sign, digits and trailing part of integer input `input`, after its
      leading white space. */
  function Int4Signed(input: string, t: string): (r: Result<int>)
    ensures r.Ok? ==> IsInt32(r.value)
  {
    var unsigned := Unsigned(t);
    var digits := LeadingDigits(unsigned);
    var magnitude: int := DigitsValue(digits);
    var value := if Negative(t) then -magnitude else magnitude;
    if digits == "" then Fail(InvalidInteger(input))
    else if magnitude > -Int32Min then Fail(IntegerOutOfRange(input))
    else if SkipSpaces(unsigned[|digits|..]) != "" then Fail(InvalidInteger(input))
    else if !IsInt32(value) then Fail(IntegerOutOfRange(input))
    else Ok(value)
  }

  /** Input that starts with neither white space, a sign nor a digit is not
      an integer. */
  lemma Int4InWithoutStart(input: string)
    requires |input| > 0 && !IsSpace(input[0]) && !IsDigit(input[0])
    requires input[0] != '-' && input[0] != '+'
    ensures Int4In(input) == Fail(InvalidInteger(input))
  {
    assert SkipSpaces(input) == input;
    assert LeadingDigits(Unsigned(input)) == "";
  }

  /** The decimal text of an integer is read back as that integer when it
      fits in 32 bits and is reported out of range otherwise. */
  lemma Int4InOfIntText(n: int)
    ensures Int4In(IntToText(n)) == if IsInt32(n) then Ok(n) else Fail(IntegerOutOfRange(IntToText(n)))
  {
    var text := IntToText(n);
    IntToTextStart(n);
    assert !IsSpace(text[0]);
    assert SkipSpaces(text) == text;
    Int4SignedOfIntText(n);
  }

  lemma Int4SignedOfIntText(n: int)
    ensures Int4Signed(IntToText(n), IntToText(n))
         == if IsInt32(n) then Ok(n) else Fail(IntegerOutOfRange(IntToText(n)))
  {
    UnsignedOfIntText(n, "");
    DigitsOfNatText(if n < 0 then -n else n, "");
    assert IntToText(n) + "" == IntToText(n);
    assert NatToText(if n < 0 then -n else n) + "" == NatToText(if n < 0 then -n else n);
  }

  /** The order of the checks, first half: digits whose magnitude exceeds
      2147483648 are out of range, whatever follows them. */
  lemma Int4OverflowBeforeTrailing(d: string, rest: string)
    requires |d| > 0 && AllDigits(d) && DigitsValue(d) > -Int32Min
    requires |rest| == 0 || !IsDigit(rest[0])
    ensures Int4In(d + rest) == Fail(IntegerOutOfRange(d + rest))
  {
    var input := d + rest;
    Int4DigitsStart(d, rest);
    assert Int4In(input) == Int4Signed(input, input);
  }

  /** Second half: digits worth 2147483648 without a sign, followed by
      anything but white space, are invalid syntax rather than out of range
      (as in "2147483648x"). */
  lemma Int4TrailingBeforeSign(d: string, rest: string)
    requires |d| > 0 && AllDigits(d) && DigitsValue(d) == -Int32Min
    requires |rest| > 0 && !IsDigit(rest[0]) && !IsSpace(rest[0])
    ensures Int4In(d + rest) == Fail(InvalidInteger(d + rest))
  {
    var input := d + rest;
    Int4DigitsStart(d, rest);
    assert input[|d|..] == rest;
    assert SkipSpaces(rest) == rest;
    assert Int4In(input) == Int4Signed(input, input);
  }

  /** Input that starts with digits is read as it stands: no white space
      to skip, no sign, and those digits. */
  lemma Int4DigitsStart(d: string, rest: string)
    requires |d| > 0 && AllDigits(d)
    requires |rest| == 0 || !IsDigit(rest[0])
    ensures SkipSpaces(d + rest) == d + rest
    ensures Unsigned(d + rest) == d + rest && !Negative(d + rest)
    ensures LeadingDigits(d + rest) == d
  {
    var t := d + rest;
    assert t[0] == d[0] && IsDigit(d[0]);
    DigitStart(t);
    LeadingDigitsOf(d, rest);
  }

  /** Text that starts with a digit has no leading space and no sign. */
  lemma DigitStart(t: string)
    requires |t| > 0 && IsDigit(t[0])
    ensures SkipSpaces(t) == t
    ensures Unsigned(t) == t && !Negative(t)
  {
    assert !IsSpace(t[0]) && t[0] != '-' && t[0] != '+';
  }

  // ---------------------------------------------------------------------------
  // parameters and assignment

  /** A parameter after the database has read it: NULL, text, or an integer. */
  datatype Param = NullParam | TextParam(text: string) | IntParam(n: int)

  /** `capacity` receives integers, the other columns text. */
  predicate ParamFits(c: HallColumn, p: Param)
  {
    match p
    case NullParam => true
    case TextParam(_) => c != Capacity
    case IntParam(n) => c == Capacity && IsInt32(n)
  }

  /** A value for a text column: undefined (the builder's DEFAULT, NULL for
      these columns) and null give NULL, anything else its text. */
  function TextBinding(v: JsValue): Param
  {
    if v.Undefined? || v.Null? then NullParam else TextParam(ToText(v))
  }

  /** A value for column `c` as the database reads it: a text column gets
      the value's text (NULL for undefined and null), `capacity` the integer
      its text reads as; only integer input can fail. */
  function BindValue(c: HallColumn, v: JsValue): (r: Result<Param>)
    ensures r.Ok? ==> ParamFits(c, r.value)
    ensures r.Fail? ==> c == Capacity && (r.error.InvalidInteger? || r.error.IntegerOutOfRange?)
    ensures c != Capacity ==> r == Ok(TextBinding(v))
    ensures v.Undefined? || v.Null? ==> r == Ok(NullParam)
    ensures c == Capacity && !v.Undefined? && !v.Null? ==>
      && (r.Ok? <==> Int4In(ToText(v)).Ok?)
      && (r.Ok? ==> r.value == IntParam(Int4In(ToText(v)).value))
      && (r.Fail? ==> r.error == Int4In(ToText(v)).error)
  {
    if c != Capacity then Ok(TextBinding(v))
    else if v.Undefined? || v.Null? then Ok(NullParam)
    else match Int4In(ToText(v))
      case Ok(n) => Ok(IntParam(n))
      case Fail(e) => Fail(e)
  }

  /** The `where hall_id = key` parameter: null matches no row (None). */
  function BindKey(key: JsValue): (r: Result<Option<int>>)
    ensures r.Ok? && r.value.Some? ==> IsInt32(r.value.value)
  {
    if key.Undefined? then Fail(UndefinedParameter)
    else if key.Null? then Ok(None)
    else match Int4In(ToText(key))
      case Ok(n) => Ok(Some(n))
      case Fail(e) => Fail(e)
  }

  /** Assignment to `varchar(n)`: longer text is an error unless the excess is
      all spaces, which are cut off. */
  function AssignVarchar(s: string, n: nat): (r: Result<string>)
    ensures r.Ok? ==> |r.value| <= n && r.value <= s
    ensures r.Ok? <==> |s| <= n || forall i | n <= i < |s| :: s[i] == ' '
    ensures |s| <= n ==> r == Ok(s)
  {
    if |s| <= n then Ok(s)
    else if forall i | n <= i < |s| :: s[i] == ' ' then Ok(s[..n])
    else Fail(ValueTooLong(n))
  }

  /** Text `s` as column `c` stores it: cut to the column's length, if it
      has one. (Assignment only ever cuts off spaces.) */
  function Fitted(c: HallColumn, s: string): (f: string)
    ensures f <= s
    ensures Limit(c).None? || |s| <= Limit(c).value ==> f == s
    ensures Limit(c).Some? ==> |f| <= Limit(c).value
  {
    if Limit(c).Some? && |s| > Limit(c).value then s[..Limit(c).value] else s
  }

  /** A text value no longer than column `c` allows. */
  predicate WithinLength(c: HallColumn, p: Param)
  {
    p.TextParam? && Limit(c).Some? ==> |p.text| <= Limit(c).value
  }

  /** The length cast of column `c`; NULL and integers pass unchanged, and
      text that passes is stored fitted to the column. */
  function CastLength(c: HallColumn, p: Param): (r: Result<Param>)
    requires ParamFits(c, p)
    ensures r.Ok? ==> ParamFits(c, r.value) && r.value.NullParam? == p.NullParam?
    ensures r.Ok? ==> WithinLength(c, r.value)
    ensures r.Fail? ==> r.error.ValueTooLong?
    ensures !p.TextParam? ==> r == Ok(p)
    ensures r.Ok? && p.TextParam? ==> r.value == TextParam(Fitted(c, p.text))
  {
    match p
    case TextParam(s) =>
      if Limit(c).None? then Ok(p)
      else (match AssignVarchar(s, Limit(c).value)
        case Ok(s') => Ok(TextParam(s'))
        case Fail(e) => Fail(e))
    case _ => Ok(p)
  }

  function ToCell(p: Param): Cell
    requires !p.NullParam?
  {
    match p
    case TextParam(s) => TextCell(s)
    case IntParam(n) => IntCell(n)
  }

  /** Another hall than `except` already carries `name`. */
  predicate NameTakenByOther(halls: map<int, Hall>, name: string, except: Option<int>)
  {
    exists k | k in halls :: Some(k) != except && halls[k].hallName == name
  }

  // ---------------------------------------------------------------------------
  // insert

  /** The object handed to the insert; each property may be missing. */
  datatype HallInput = HallInput(hallId: JsValue, hallName: JsValue, hallFacility: JsValue,
                                 capacity: JsValue, hallType: JsValue, primaryInCharge: JsValue)

  const HallIdColumn := "hall_id"

  /** Where the new row's `hall_id` comes from: the sequence (the column's
      default), NULL, or a given integer. */
  datatype IdSource = Drawn | GivenNull | Given(id: int)

  /** The `hallId` property as the insert reads it: a missing one becomes the
      column's default, null is NULL, and anything else is integer input. */
  function BindId(v: JsValue): (r: Result<IdSource>)
    ensures v.Undefined? <==> r == Ok(Drawn)
    ensures v.Null? <==> r == Ok(GivenNull)
    ensures !v.Undefined? && !v.Null? ==>
      && (r.Ok? <==> Int4In(ToText(v)).Ok?)
      && (r.Ok? ==> r.value == Given(Int4In(ToText(v)).value))
      && (r.Fail? ==> r.error == Int4In(ToText(v)).error)
  {
    if v.Undefined? then Ok(Drawn)
    else if v.Null? then Ok(GivenNull)
    else match Int4In(ToText(v))
      case Ok(n) => Ok(Given(n))
      case Fail(e) => Fail(e)
  }

  /** The `hall_id` of a row whose id comes from `source`; the sequence's
      next value when it is drawn. */
  function RowId(s: State, source: IdSource): Option<int>
  {
    match source
    case Drawn => Some(s.nextHallId)
    case GivenNull => None
    case Given(n) => Some(n)
  }

  /** The key an insert of `d` stores its row under, if any. */
  function InsertKey(s: State, d: HallInput): Option<int>
  {
    match BindId(d.hallId)
    case Ok(source) => RowId(s, source)
    case Fail(_) => None
  }

  /** The length casts of an insert's bounded text values, in column order:
      the error of the first that fails, if one does. The casts are immutable
      functions of the bound values, so PostgreSQL evaluates them when it plans
      the statement for those values, before the statement runs. */
  function LengthError(d: HallInput): (r: Option<DbError>)
    ensures r.Some? ==> r.value.ValueTooLong?
    ensures r.None? <==>
      && CastLength(HallName, TextBinding(d.hallName)).Ok?
      && CastLength(HallType, TextBinding(d.hallType)).Ok?
      && CastLength(PrimaryInCharge, TextBinding(d.primaryInCharge)).Ok?
  {
    var name := CastLength(HallName, TextBinding(d.hallName));
    var kind := CastLength(HallType, TextBinding(d.hallType));
    var inCharge := CastLength(PrimaryInCharge, TextBinding(d.primaryInCharge));
    if name.Fail? then Some(name.error)
    else if kind.Fail? then Some(kind.error)
    else if inCharge.Fail? then Some(inCharge.error)
    else None
  }

  /** The row an insert builds under `id`: the length casts, then the NOT
      NULL checks in column order, `hall_id` first. */
  function BuildRow(id: Option<int>, d: HallInput, capacity: Param): (r: Result<Hall>)
    requires ParamFits(Capacity, capacity)
    ensures r.Ok? ==> id == Some(r.value.hallId) && forall c :: CellWithin(c, Column(r.value, c))
    ensures r.Ok? ==> LengthError(d).None?
    ensures r.Fail? ==> r.error.ValueTooLong? || r.error.NotNullViolation?
  {
    var name := CastLength(HallName, TextBinding(d.hallName));
    var facility := TextBinding(d.hallFacility);
    var kind := CastLength(HallType, TextBinding(d.hallType));
    var inCharge := CastLength(PrimaryInCharge, TextBinding(d.primaryInCharge));
    if LengthError(d).Some? then Fail(LengthError(d).value)
    else if id.None? then Fail(NotNullViolation(HallIdColumn))
    else if name.value.NullParam? then Fail(NotNullViolation(SqlName(HallName)))
    else if facility.NullParam? then Fail(NotNullViolation(SqlName(HallFacility)))
    else if capacity.NullParam? then Fail(NotNullViolation(SqlName(Capacity)))
    else if kind.value.NullParam? then Fail(NotNullViolation(SqlName(HallType)))
    else if inCharge.value.NullParam? then Fail(NotNullViolation(SqlName(PrimaryInCharge)))
    else Ok(Hall(id.value, name.value.text, facility.text, capacity.n, kind.value.text, inCharge.value.text))
  }

  /** A row that builds holds the given values, the text ones fitted to
      their columns. */
  lemma BuildRowValues(id: Option<int>, d: HallInput, capacity: Param)
    requires ParamFits(Capacity, capacity)
    requires BuildRow(id, d, capacity).Ok?
    ensures var h := BuildRow(id, d, capacity).value;
      && id == Some(h.hallId)
      && !d.hallName.Undefined? && !d.hallName.Null?
      && h.hallName == Fitted(HallName, ToText(d.hallName))
      && h.hallFacility == ToText(d.hallFacility)
      && capacity == IntParam(h.capacity)
      && h.hallType == Fitted(HallType, ToText(d.hallType))
      && h.primaryInCharge == Fitted(PrimaryInCharge, ToText(d.primaryInCharge))
  {
  }

  /** `insert into halls`, as PostgreSQL runs it under a plan made for the
      bound values: read the parameters in column order (`hall_id` only when
      given) and cast the bounded texts to their lengths while planning; then,
      running the statement, draw the next id from the sequence when none is
      given (used up even when the insert then fails), build the row, and
      check the primary key and `unique_hall_name`. */
  function ExecInsertHall(s: State, d: HallInput): (r: (State, Outcome))
    ensures r.1 == Count(1) || r.1.Failed?
    ensures r.1.Failed? ==> r.0.tables == s.tables
    ensures s.nextHallId <= r.0.nextHallId <= s.nextHallId + 1
    ensures !d.hallId.Undefined? ==> r.0.nextHallId == s.nextHallId
    ensures LengthError(d).Some? ==> r.0 == s && r.1.Failed?
  {
    match BindId(d.hallId)
    case Fail(e) => (s, Failed(e))
    case Ok(source) =>
      match BindValue(Capacity, d.capacity)
      case Fail(e) => (s, Failed(e))
      case Ok(capacity) =>
        if LengthError(d).Some? then (s, Failed(LengthError(d).value))
        else if source.Drawn? && s.nextHallId > Int32Max then (s, Failed(SequenceExhausted))
        else
          var after := if source.Drawn? then s.(nextHallId := s.nextHallId + 1) else s;
          match BuildRow(RowId(s, source), d, capacity)
          case Fail(e) => (after, Failed(e))
          case Ok(h) =>
            var (t', o) := InsertRow(s.tables, h);
            (after.(tables := t'), o)
  }

  /** Storing a built row: its key and its name must both be new. */
  function InsertRow(t: Tables, h: Hall): (r: (Tables, Outcome))
    ensures r.1 == Count(1) || r.1 == Failed(UniqueViolation(HallsPrimaryKey)) || r.1 == Failed(UniqueViolation(UniqueHallName))
    ensures r.1.Failed? ==> r.0 == t
    ensures r.1.Count? <==> h.hallId !in t.halls && forall k | k in t.halls :: t.halls[k].hallName != h.hallName
    ensures r.1.Count? ==> r.0 == t.(halls := t.halls[h.hallId := h])
  {
    if h.hallId in t.halls then (t, Failed(UniqueViolation(HallsPrimaryKey)))
    else if NameTakenByOther(t.halls, h.hallName, None) then (t, Failed(UniqueViolation(UniqueHallName)))
    else (t.(halls := t.halls[h.hallId := h]), Count(1))
  }

  // ---------------------------------------------------------------------------
  // update

  /** `update halls set <c> = v where hall_id = key`, as PostgreSQL runs it
      under a plan made for the bound values. The builder drops an undefined
      value and then has nothing to set; the driver refuses an undefined key;
      the database reads both parameters and casts the value to the column's
      length while planning, whether or not a row matches; only for a
      matching row does it then check NOT NULL and `unique_hall_name`. */
  function ExecUpdateHall(t: Tables, c: HallColumn, v: JsValue, key: JsValue): (r: (Tables, Outcome))
    ensures r.1 == Count(0) || r.1 == Count(1) || r.1.Failed?
    ensures r.1 != Count(1) ==> r.0 == t
    ensures v.Undefined? ==> r.1 == Failed(NoValuesToSet)
    ensures !v.Undefined? && key.Undefined? ==> r.1 == Failed(UndefinedParameter)
    ensures r.1.Count? ==> BindValue(c, v).Ok? && CastLength(c, BindValue(c, v).value).Ok?
  {
    if v.Undefined? then (t, Failed(NoValuesToSet))
    else if key.Undefined? then (t, Failed(UndefinedParameter))
    else match BindValue(c, v)
      case Fail(e) => (t, Failed(e))
      case Ok(p) =>
        match BindKey(key)
        case Fail(e) => (t, Failed(e))
        case Ok(k) =>
          match CastLength(c, p)
          case Fail(e) => (t, Failed(e))
          case Ok(p') =>
            if k.None? || k.value !in t.halls then (t, Count(0))
            else UpdateRow(t, k.value, c, p')
  }


  /** `cell` is what assigning the request value `v` to column `c` stores:
      for `capacity` the integer its text reads as, for a text column its
      text fitted to the column. */
  predicate StoredFrom(c: HallColumn, cell: Cell, v: JsValue)
  {
    && !v.Undefined? && !v.Null?
    && if c == Capacity then cell.IntCell? && Int4In(ToText(v)) == Ok(cell.n)
       else cell == TextCell(Fitted(c, ToText(v)))
  }

  /** Updating the matched row `k` with a value already cast to the column's
      length: it must not be NULL, and a new name must not belong to another
      hall. On success only column `c` of row `k` changes, and it stays within
      bounds. */
  function UpdateRow(t: Tables, k: int, c: HallColumn, p: Param): (r: (Tables, Outcome))
    requires k in t.halls && ParamFits(c, p) && WithinLength(c, p)
    ensures r.1 == Count(1) || r.1.Failed?
    ensures r.1.Failed? ==> r.0 == t
    ensures r.1.Count? ==>
      && k in r.0.halls
      && r.0 == t.(halls := r.0.halls)
      && r.0.halls == t.halls[k := r.0.halls[k]]
      && CellWithin(c, Column(r.0.halls[k], c))
      && (forall c' | c' != c :: Column(r.0.halls[k], c') == Column(t.halls[k], c'))
      && r.0.halls[k].hallId == t.halls[k].hallId
      && (c == HallName ==> forall k' | k' in t.halls && k' != k :: t.halls[k'].hallName != r.0.halls[k].hallName)
    ensures r.1.Count? ==> !p.NullParam?
    ensures r.1.Count? && p.IntParam? ==> Column(r.0.halls[k], c) == IntCell(p.n)
    ensures r.1.Count? && p.TextParam? ==> Column(r.0.halls[k], c) == TextCell(p.text)
    ensures r.1.Failed? ==> r.1 == Failed(NotNullViolation(SqlName(c))) || r.1 == Failed(UniqueViolation(UniqueHallName))
  {
    if p.NullParam? then (t, Failed(NotNullViolation(SqlName(c))))
    else if c == HallName && NameTakenByOther(t.halls, p.text, Some(k)) then
      (t, Failed(UniqueViolation(UniqueHallName)))
    else
      var h := SetColumn(t.halls[k], c, ToCell(p));
      (t.(halls := t.halls[k := h]), Count(1))
  }

  // ---------------------------------------------------------------------------
  // delete

  /** `delete from halls where hall_id = key`, with the foreign keys'
      cascades: one row is deleted exactly when the key reads as the id of a
      hall; otherwise nothing changes. */
  function ExecDeleteHall(t: Tables, key: JsValue): (r: (Tables, Outcome))
    ensures r.1 == Count(0) || r.1 == Count(1) || r.1.Failed?
    ensures r.1 != Count(1) ==> r.0 == t
    ensures key.Undefined? ==> r.1 == Failed(UndefinedParameter)
    ensures r.1 == Count(1) <==> exists k | k in t.halls :: BindKey(key) == Ok(Some(k))
    ensures r.1 == Count(1) ==> r.0 == DeleteHall(t, BindKey(key).value.value)
  {
    match BindKey(key)
    case Fail(e) => (t, Failed(e))
    case Ok(k) =>
      if k.None? || k.value !in t.halls then (t, Count(0))
      else (DeleteHall(t, k.value), Count(1))
  }

  // ---------------------------------------------------------------------------
  // properties

  /** An insert that succeeds adds exactly one hall, under the id the
      record gives or else the one drawn from the sequence, built from the
      given values, and with a key and a name no hall had. (A failed one
      leaves the tables as they were: see `ExecInsertHall`.) */
  lemma InsertHallEffect(s: State, d: HallInput)
    ensures var (s', o) := ExecInsertHall(s, d);
      o.Count? ==>
        && InsertKey(s, d).Some?
        && var k := InsertKey(s, d).value;
        && k !in s.tables.halls
        && k in s'.tables.halls
        && s'.tables == s.tables.(halls := s.tables.halls[k := s'.tables.halls[k]])
        && (d.hallId.Undefined? ==> k == s.nextHallId && s'.nextHallId == s.nextHallId + 1)
        && (!d.hallId.Undefined? ==> Int4In(ToText(d.hallId)) == Ok(k))
        && var h := s'.tables.halls[k];
           && h.hallId == k
           && !d.hallName.Undefined? && !d.hallName.Null?
           && h.hallName == Fitted(HallName, ToText(d.hallName))
           && h.hallFacility == ToText(d.hallFacility)
           && Int4In(ToText(d.capacity)) == Ok(h.capacity)
           && h.hallType == Fitted(HallType, ToText(d.hallType))
           && h.primaryInCharge == Fitted(PrimaryInCharge, ToText(d.primaryInCharge))
           && forall k' | k' in s.tables.halls :: s.tables.halls[k'].hallName != h.hallName
  {
    if ExecInsertHall(s, d).1.Count? {
      InsertHallStored(s, d);
      BuildRowValues(RowId(s, BindId(d.hallId).value), d, BindValue(Capacity, d.capacity).value);
    }
  }

  /** Once a hall holds the sequence's next value (an id a record gave), an
      insert that draws that value fails and adds nothing. */
  lemma InsertDrawnIdTaken(s: State, d: HallInput)
    requires d.hallId.Undefined? && s.nextHallId in s.tables.halls
    ensures ExecInsertHall(s, d).1.Failed?
    ensures ExecInsertHall(s, d).0.tables == s.tables
  {
    InsertHallEffect(s, d);
  }

  /** A successful insert stores the row built from the record under its
      key, next to the unchanged halls. */
  lemma InsertHallStored(s: State, d: HallInput)
    ensures ExecInsertHall(s, d).1.Count? ==>
      && BindId(d.hallId).Ok? && BindValue(Capacity, d.capacity).Ok?
      && var source := BindId(d.hallId).value;
      && BuildRow(RowId(s, source), d, BindValue(Capacity, d.capacity).value).Ok?
      && var h := BuildRow(RowId(s, source), d, BindValue(Capacity, d.capacity).value).value;
         && h.hallId !in s.tables.halls
         && (forall k | k in s.tables.halls :: s.tables.halls[k].hallName != h.hallName)
         && ExecInsertHall(s, d).0
            == State(s.tables.(halls := s.tables.halls[h.hallId := h]),
                     if source.Drawn? then s.nextHallId + 1 else s.nextHallId)
  {
    InsertStoresOnlyBuiltRows(s, d);
    var i := BindId(d.hallId);
    var b := BindValue(Capacity, d.capacity);
    if && i.Ok? && b.Ok? && (i.value.Drawn? ==> s.nextHallId <= Int32Max)
       && BuildRow(RowId(s, i.value), d, b.value).Ok?
    {
      InsertBuiltRow(s, d, i.value, b.value, BuildRow(RowId(s, i.value), d, b.value).value);
    }
  }

  /** An insert stores a row only after reading the id and the capacity,
      drawing an id if none was given, and building the row. */
  lemma InsertStoresOnlyBuiltRows(s: State, d: HallInput)
    ensures ExecInsertHall(s, d).1.Count? ==>
      && BindId(d.hallId).Ok? && BindValue(Capacity, d.capacity).Ok?
      && (BindId(d.hallId).value.Drawn? ==> s.nextHallId <= Int32Max)
      && BuildRow(RowId(s, BindId(d.hallId).value), d, BindValue(Capacity, d.capacity).value).Ok?
  {
    var i := BindId(d.hallId);
    var b := BindValue(Capacity, d.capacity);
    if i.Fail? {
      assert ExecInsertHall(s, d).1 == Failed(i.error);
    } else if b.Fail? {
      assert ExecInsertHall(s, d).1 == Failed(b.error);
    } else if LengthError(d).Some? {
      assert ExecInsertHall(s, d).1 == Failed(LengthError(d).value);
    } else if i.value.Drawn? && s.nextHallId > Int32Max {
      assert ExecInsertHall(s, d).1 == Failed(SequenceExhausted);
    } else if BuildRow(RowId(s, i.value), d, b.value).Fail? {
      assert ExecInsertHall(s, d).1 == Failed(BuildRow(RowId(s, i.value), d, b.value).error);
    }
  }

  /** Once the id and the capacity are read, an id drawn if needed and the
      row built, the insert is the storing of that row. */
  lemma InsertBuiltRow(s: State, d: HallInput, source: IdSource, capacity: Param, h: Hall)
    requires BindId(d.hallId) == Ok(source) && BindValue(Capacity, d.capacity) == Ok(capacity)
    requires source.Drawn? ==> s.nextHallId <= Int32Max
    requires BuildRow(RowId(s, source), d, capacity) == Ok(h)
    ensures ExecInsertHall(s, d).0
         == State(InsertRow(s.tables, h).0, if source.Drawn? then s.nextHallId + 1 else s.nextHallId)
    ensures ExecInsertHall(s, d).1 == InsertRow(s.tables, h).1
  {
  }

  /** An insert whose name another hall already has fails, and leaves the
      tables unchanged. */
  lemma InsertDuplicateName(s: State, d: HallInput, k: int)
    requires Valid(s) && k in s.tables.halls
    requires d.hallName == Str(s.tables.halls[k].hallName)
    ensures ExecInsertHall(s, d).1.Failed?
    ensures ExecInsertHall(s, d).0.tables == s.tables
  {
    var i := BindId(d.hallId);
    var b := BindValue(Capacity, d.capacity);
    if i.Ok? && b.Ok? && (i.value.Drawn? ==> s.nextHallId <= Int32Max) {
      var r := BuildRow(RowId(s, i.value), d, b.value);
      if r.Ok? {
        assert HallFits(s.tables.halls[k]);
        BuildRowValues(RowId(s, i.value), d, b.value);
        assert r.value.hallName == s.tables.halls[k].hallName;
        InsertBuiltRow(s, d, i.value, b.value, r.value);
      }
    }
  }

  /** An insert keeps every constraint of the schema. */
  lemma InsertHallKeepsValid(s: State, d: HallInput)
    requires Valid(s)
    ensures Valid(ExecInsertHall(s, d).0)
  {
    var (s', o) := ExecInsertHall(s, d);
    if o.Count? {
      InsertHallStored(s, d);
      var source := BindId(d.hallId).value;
      var h := BuildRow(RowId(s, source), d, BindValue(Capacity, d.capacity).value).value;
      assert IsInt32(h.hallId);
      HallFitsByColumns(h);
      AddHallConsistent(s.tables, h);
    }
  }

  /** An update that reports one row replaced column `c` of exactly the hall
      the key names by the value given, read as the column reads it, and
      changed nothing else; a new name belongs to no other hall. */
  lemma UpdateHallApplied(t: Tables, c: HallColumn, v: JsValue, key: JsValue)
    requires ExecUpdateHall(t, c, v, key).1 == Count(1)
    ensures BindKey(key).Ok? && BindKey(key).value.Some?
    ensures var k := BindKey(key).value.value; var t' := ExecUpdateHall(t, c, v, key).0;
      && k in t.halls && k in t'.halls
      && t' == t.(halls := t.halls[k := t'.halls[k]])
      && CellWithin(c, Column(t'.halls[k], c))
      && (forall c' | c' != c :: Column(t'.halls[k], c') == Column(t.halls[k], c'))
      && t'.halls[k].hallId == t.halls[k].hallId
      && (c == HallName ==>
            forall k' | k' in t.halls && k' != k :: t.halls[k'].hallName != t'.halls[k].hallName)
      && StoredFrom(c, Column(t'.halls[k], c), v)
  {
    var k := BindKey(key).value.value;
    var p := CastLength(c, BindValue(c, v).value).value;
    assert ExecUpdateHall(t, c, v, key) == UpdateRow(t, k, c, p);
    UpdateRowStores(t, k, c, v);
  }

  /** A row update that succeeds stores the value the request gave. */
  lemma UpdateRowStores(t: Tables, k: int, c: HallColumn, v: JsValue)
    requires k in t.halls && BindValue(c, v).Ok? && CastLength(c, BindValue(c, v).value).Ok?
    requires UpdateRow(t, k, c, CastLength(c, BindValue(c, v).value).value).1.Count?
    ensures StoredFrom(c, Column(UpdateRow(t, k, c, CastLength(c, BindValue(c, v).value).value).0.halls[k], c), v)
  {
    var p := BindValue(c, v).value;
    assert !p.NullParam?;
  }

  /** An update keeps the set of hall keys and every hall's `hall_id`. */
  lemma UpdateHallSameKeys(t: Tables, c: HallColumn, v: JsValue, key: JsValue)
    ensures var t' := ExecUpdateHall(t, c, v, key).0;
      && t'.halls.Keys == t.halls.Keys
      && forall k | k in t.halls :: t'.halls[k].hallId == t.halls[k].hallId
  {
    var (t', o) := ExecUpdateHall(t, c, v, key);
    if o == Count(1) {
      UpdateHallApplied(t, c, v, key);
      var k := BindKey(key).value.value;
      ReplacedRowKeys(t.halls, k, t'.halls[k]);
    }
  }

  /** Replacing row `k` by one with the same `hall_id` keeps the keys and
      every `hall_id`. */
  lemma ReplacedRowKeys(halls: map<int, Hall>, k: int, h: Hall)
    requires k in halls && h.hallId == halls[k].hallId
    ensures halls[k := h].Keys == halls.Keys
    ensures forall k' | k' in halls :: halls[k := h][k'].hallId == halls[k'].hallId
  {
  }

  /** An update whose key names no hall changes nothing. It reports zero
      rows, unless the value is too long for the column: that is refused
      while the statement is planned, before any row is looked for. */
  lemma UpdateMissingHall(t: Tables, c: HallColumn, v: JsValue, key: JsValue, k: int)
    requires !v.Undefined? && BindValue(c, v).Ok?
    requires BindKey(key) == Ok(Some(k)) && k !in t.halls
    ensures var cast := CastLength(c, BindValue(c, v).value);
      ExecUpdateHall(t, c, v, key) == (t, if cast.Ok? then Count(0) else Failed(cast.error))
  {
  }

  /** A value too long for its column fails the update with that error
      whatever the key, and changes nothing. */
  lemma UpdateTooLong(t: Tables, c: HallColumn, s: string, key: JsValue)
    requires BindKey(key).Ok?
    requires Limit(c).Some? && |s| > Limit(c).value && s[Limit(c).value] != ' '
    ensures ExecUpdateHall(t, c, Str(s), key) == (t, Failed(ValueTooLong(Limit(c).value)))
  {
    assert c != Capacity;
    assert BindValue(c, Str(s)) == Ok(TextParam(s));
    CastTooLong(c, s);
  }

  /** Text whose first character past the column's length is not a space
      fails the length cast. */
  lemma CastTooLong(c: HallColumn, s: string)
    requires Limit(c).Some? && |s| > Limit(c).value && s[Limit(c).value] != ' '
    ensures c != Capacity
    ensures CastLength(c, TextParam(s)) == Fail(ValueTooLong(Limit(c).value))
  {
    var n := Limit(c).value;
    assert !(forall i | n <= i < |s| :: s[i] == ' ');
    assert AssignVarchar(s, n) == Fail(ValueTooLong(n));
  }

  /** An update keeps every constraint of the schema. */
  lemma UpdateHallKeepsConsistent(t: Tables, c: HallColumn, v: JsValue, key: JsValue)
    requires Consistent(t)
    ensures Consistent(ExecUpdateHall(t, c, v, key).0)
  {
    var (t', o) := ExecUpdateHall(t, c, v, key);
    if o == Count(1) {
      UpdateHallApplied(t, c, v, key);
      var k := BindKey(key).value.value;
      ReplacedRowConsistent(t, k, c, t'.halls[k]);
    }
  }

  /** Replacing row `k` by one that differs from it only in column `c`, stays
      within that column's bound and, for a new name, takes no other hall's
      name, keeps every constraint. */
  lemma ReplacedRowConsistent(t: Tables, k: int, c: HallColumn, h: Hall)
    requires Consistent(t) && k in t.halls
    requires h.hallId == t.halls[k].hallId && CellWithin(c, Column(h, c))
    requires forall c' | c' != c :: Column(h, c') == Column(t.halls[k], c')
    requires c == HallName ==> forall k' | k' in t.halls && k' != k :: t.halls[k'].hallName != h.hallName
    ensures Consistent(t.(halls := t.halls[k := h]))
  {
    HallFitsByColumns(t.halls[k]);
    HallFitsByColumns(h);
    if c != HallName {
      assert Column(h, HallName) == Column(t.halls[k], HallName);
    }
    ReplaceHallConsistent(t, h);
  }

  /** Deleting the same key twice: the second delete finds no row. */
  lemma DeleteHallTwice(t: Tables, key: JsValue)
    requires ExecDeleteHall(t, key).1 == Count(1)
    ensures var t' := ExecDeleteHall(t, key).0;
      ExecDeleteHall(t', key) == (t', Count(0))
  {
    var k := BindKey(key).value.value;
    assert k !in DeleteHall(t, k).halls;
  }

  /** A delete keeps every constraint of the schema. */
  lemma DeleteHallKeepsValid(s: State, key: JsValue)
    requires Valid(s)
    ensures Valid(s.(tables := ExecDeleteHall(s.tables, key).0))
  {
    var (t', o) := ExecDeleteHall(s.tables, key);
    if o == Count(1) {
      DeleteHallCascades(s.tables, BindKey(key).value.value);
    }
  }

  /** The errors an insert can report, in the order they are found: the
      given id's or the capacity's own error when it cannot be read (which
      quotes the caller's text); then the first over-long text; otherwise the
      exhausted sequence, a NOT NULL column, or one of the two unique
      constraints. */
  lemma InsertHallErrors(s: State, d: HallInput)
    ensures var o := ExecInsertHall(s, d).1;
      o.Failed? ==>
        if BindId(d.hallId).Fail? then o.error == BindId(d.hallId).error
        else if BindValue(Capacity, d.capacity).Fail? then o.error == BindValue(Capacity, d.capacity).error
        else if LengthError(d).Some? then o.error == LengthError(d).value
        else
          || o.error == SequenceExhausted
          || o.error == NotNullViolation(HallIdColumn)
          || (o.error.NotNullViolation? && exists c :: o.error.column == SqlName(c))
          || o.error == UniqueViolation(HallsPrimaryKey)
          || o.error == UniqueViolation(UniqueHallName)
  {
    var i := BindId(d.hallId);
    var b := BindValue(Capacity, d.capacity);
    if i.Fail? || b.Fail? || LengthError(d).Some? {
      InsertRefusedBeforeDraw(s, d);
    } else if i.value.Drawn? && s.nextHallId > Int32Max {
      assert ExecInsertHall(s, d).1 == Failed(SequenceExhausted);
    } else {
      var r := BuildRow(RowId(s, i.value), d, b.value);
      if r.Fail? {
        assert ExecInsertHall(s, d).1 == Failed(r.error);
        BuildRowErrors(RowId(s, i.value), d, b.value);
      } else {
        InsertBuiltRow(s, d, i.value, b.value, r.value);
      }
    }
  }

  /** A row whose texts fit fails to build only on a NULL in a NOT NULL
      column. */
  lemma BuildRowErrors(id: Option<int>, d: HallInput, capacity: Param)
    requires ParamFits(Capacity, capacity)
    ensures var r := BuildRow(id, d, capacity);
      r.Fail? && LengthError(d).None? ==>
        || r.error == NotNullViolation(HallIdColumn)
        || (r.error.NotNullViolation? && exists c :: r.error.column == SqlName(c))
  {
  }

  /** An insert whose id or capacity cannot be read, or whose text is too
      long for its column, fails with that error before it draws an id. */
  lemma InsertRefusedBeforeDraw(s: State, d: HallInput)
    ensures BindId(d.hallId).Fail? ==> ExecInsertHall(s, d) == (s, Failed(BindId(d.hallId).error))
    ensures BindId(d.hallId).Ok? && BindValue(Capacity, d.capacity).Fail? ==>
      ExecInsertHall(s, d) == (s, Failed(BindValue(Capacity, d.capacity).error))
    ensures BindId(d.hallId).Ok? && BindValue(Capacity, d.capacity).Ok? && LengthError(d).Some? ==>
      ExecInsertHall(s, d) == (s, Failed(LengthError(d).value))
  {
  }

  /** The key of a number that fits in 32 bits is that number. */
  lemma BindKeyOfInt(k: int)
    requires IsInt32(k)
    ensures BindKey(Num(k)) == Ok(Some(k))
  {
    Int4InOfIntText(k);
  }

  /** An update whose parameters are readable and whose key names a hall
      is decided by that row alone. */
  lemma UpdateMatchedRow(t: Tables, c: HallColumn, v: JsValue, key: JsValue, k: int)
    requires !v.Undefined? && BindValue(c, v).Ok? && CastLength(c, BindValue(c, v).value).Ok?
    requires BindKey(key) == Ok(Some(k)) && k in t.halls
    ensures ExecUpdateHall(t, c, v, key) == UpdateRow(t, k, c, CastLength(c, BindValue(c, v).value).value)
  {
  }

  /** Setting the unbounded `hall_facility` text of the hall a key names
      always succeeds. */
  lemma UpdateFacility(t: Tables, key: JsValue, k: int, facility: string)
    requires k in t.halls && BindKey(key) == Ok(Some(k))
    ensures ExecUpdateHall(t, HallFacility, Str(facility), key)
         == (t.(halls := t.halls[k := t.halls[k].(hallFacility := facility)]), Count(1))
  {
    FacilityBinding(facility);
    assert CastLength(HallFacility, TextParam(facility)) == Ok(TextParam(facility));
    UpdateMatchedRow(t, HallFacility, Str(facility), key, k);
    FacilityRow(t, k, facility);
  }

  /** Setting the capacity of the hall a key names to a 32-bit number always
      succeeds, and the hall then holds that capacity. */
  lemma UpdateCapacity(t: Tables, key: JsValue, k: int, n: int)
    requires k in t.halls && BindKey(key) == Ok(Some(k)) && IsInt32(n)
    ensures ExecUpdateHall(t, Capacity, Num(n), key)
         == (t.(halls := t.halls[k := t.halls[k].(capacity := n)]), Count(1))
  {
    CapacityBinding(n);
    assert CastLength(Capacity, IntParam(n)) == Ok(IntParam(n));
    UpdateMatchedRow(t, Capacity, Num(n), key, k);
    CapacityRow(t, k, n);
  }

  lemma CapacityBinding(n: int)
    requires IsInt32(n)
    ensures BindValue(Capacity, Num(n)) == Ok(IntParam(n))
  {
    Int4InOfIntText(n);
  }

  lemma CapacityRow(t: Tables, k: int, n: int)
    requires k in t.halls && IsInt32(n)
    ensures UpdateRow(t, k, Capacity, IntParam(n))
         == (t.(halls := t.halls[k := t.halls[k].(capacity := n)]), Count(1))
  {
  }

  lemma FacilityBinding(facility: string)
    ensures BindValue(HallFacility, Str(facility)) == Ok(TextParam(facility))
  {
  }

  lemma FacilityRow(t: Tables, k: int, facility: string)
    requires k in t.halls
    ensures UpdateRow(t, k, HallFacility, TextParam(facility))
         == (t.(halls := t.halls[k := t.halls[k].(hallFacility := facility)]), Count(1))
  {
  }
}
