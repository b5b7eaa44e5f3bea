/** The hall controllers: `addHallCtrl`, `deleteHall` and `updateHallEntry`.
    Each reads the request body, awaits one query and answers with a status
    and a JSON body. A failure is classified by searching the text of the
    thrown message, so the answer depends on how the query layer words its
    errors. Each handler is a method over the `Store`, proved against a
    function of the database snapshot. */
module HallController {
  import opened Basics
  import opened Text
  import opened Js
  import Schema
  import opened Database
  import opened Queries
  import opened HallStore

  /** The JSON body of an answer. */
  datatype ReplyBody =
    | ErrorBody(error: string)                      // { error }
    | MessageBody(message: string)                  // { message }
    | AddedBody(message: string, data: seq<Schema.Hall>)   // { message, data }

  /** An answer: the status code and the JSON body. */
  datatype Reply = Reply(status: int, body: ReplyBody)

  const HallAddedMessage := "Hall added successfully"
  const InternalServerError := "Internal server error"
  const MissingHallIdError := "Missing field: hallId"

  /** The phrases the handlers search failure messages for. */
  const MissingFieldsPhrase := "The following " + "required fields are missing"
  const DuplicateNamePhrase := "Hall with this " + "name already exists."
  const NoHallFoundPhrase := "No hall found"

  // ---------------------------------------------------------------------------
  // addHallCtrl

  /** The answer to what `addHall` returned or threw: 201 with the result, 400
      or 409 with the message when it names missing fields or a taken name,
      and a generic 500 otherwise. */
  function AddHallReply(r: Thrown<InsertResult>): (reply: Reply)
    ensures reply.status in {201, 400, 409, 500}
    ensures reply.status == 201 <==> r.Returned?
    ensures reply.status == 400 <==> r.Threw? && Contains(r.message, MissingFieldsPhrase)
    ensures reply.status == 409 <==>
      r.Threw? && !Contains(r.message, MissingFieldsPhrase) && Contains(r.message, DuplicateNamePhrase)
    ensures r.Returned? ==> reply.body == AddedBody(HallAddedMessage, r.value.rows)
    ensures reply.status in {400, 409} ==> reply.body == ErrorBody(r.message)
    ensures reply.status == 500 ==> reply.body == ErrorBody(InternalServerError)
  {
    match r
    case Returned(v) => Reply(201, AddedBody(HallAddedMessage, v.rows))
    case Threw(m) =>
      if Contains(m, MissingFieldsPhrase) then Reply(400, ErrorBody(m))
      else if Contains(m, DuplicateNamePhrase) then Reply(409, ErrorBody(m))
      else Reply(500, ErrorBody(InternalServerError))
  }

  /** `addHallCtrl` on a snapshot: the answer and the database after it;
      only a 201 answer comes with a changed table. */
  function AddHallResponse(s: State, hallData: HallInput): (r: (Reply, State))
    ensures r.0.status in {201, 400, 409, 500}
    ensures r.0.status == 201 ==> r.0.body == AddedBody(HallAddedMessage, [])
    ensures r.0.status != 201 ==> r.1.tables == s.tables
  {
    var u := Queries.AddHall(s, hallData);
    (AddHallReply(u.0), u.1)
  }

  /** `addHallCtrl(req, res)`, the request body being `hallData`. */
  method AddHallCtrl(store: Store, hallData: HallInput) returns (reply: Reply)
    requires store.Valid()
    modifies store
    ensures store.Valid()
    ensures (reply, store.State()) == AddHallResponse(old(store.State()), hallData)
  {
    var result := store.AddHall(hallData);
    reply := AddHallReply(result);
  }

  /** A hall is created exactly when the answer is 201, whose data is the
      empty row list the insert returns, under the id the body gives or else
      the next one of the sequence; any other answer leaves the halls as they
      were. */
  lemma AddHallAnswers(s: State, hallData: HallInput)
    requires Valid(s)
    ensures var (reply, s') := AddHallResponse(s, hallData);
      && Valid(s')
      && (reply.status == 201 <==> s'.tables != s.tables)
      && (reply.status == 201 ==>
            && reply.body == AddedBody(HallAddedMessage, [])
            && InsertKey(s, hallData).Some?
            && s'.tables.halls.Keys == s.tables.halls.Keys + {InsertKey(s, hallData).value})
  {
    AddHallEffect(s, hallData);
    var (r, s') := Queries.AddHall(s, hallData);
    if r.Returned? {
      assert InsertKey(s, hallData).value in s'.tables.halls.Keys - s.tables.halls.Keys;
    }
  }

  /** The messages an insert can fail with, other than those quoting the
      capacity, hold no `w`; both phrases the handler searches for do. */
  lemma InsertErrorLacksW(e: DbError)
    requires || e == SequenceExhausted
             || e.ValueTooLong?
             || e == NotNullViolation(HallIdColumn)
             || (e.NotNullViolation? && exists c :: e.column == Schema.SqlName(c))
             || e == UniqueViolation(HallsPrimaryKey)
             || e == UniqueViolation(UniqueHallName)
    ensures 'w' !in Message(e)
  {
    match e
    case ValueTooLong(n) => TooLongLacksW(n);
    case NotNullViolation(column) =>
      if column == HallIdColumn {
        NullMessageLacksW(HallIdColumn);
      } else {
        var c :| column == Schema.SqlName(c);
        NotNullLacksW(c);
      }
    case UniqueViolation(constraint) => UniqueLacksW(constraint);
    case SequenceExhausted => SequenceExhaustedLacksW();
  }

  lemma TooLongLacksW(n: nat)
    ensures 'w' !in Message(ValueTooLong(n))
  {
    NonDigitAbsent(NatToText(n), 'w');
  }

  lemma NotNullLacksW(c: Schema.HallColumn)
    ensures 'w' !in Message(NotNullViolation(Schema.SqlName(c)))
  {
    ColumnNameLacksW(c);
    NullMessageLacksW(Schema.SqlName(c));
  }

  lemma ColumnNameLacksW(c: Schema.HallColumn)
    ensures 'w' !in Schema.SqlName(c)
  {
  }

  lemma NullMessageLacksW(column: string)
    requires 'w' !in column
    ensures 'w' !in Message(NotNullViolation(column))
  {
  }

  lemma UniqueLacksW(constraint: string)
    requires constraint == HallsPrimaryKey || constraint == UniqueHallName
    ensures 'w' !in Message(UniqueViolation(constraint))
  {
    UniqueMessageLacksW(constraint);
  }

  lemma UniqueMessageLacksW(constraint: string)
    requires 'w' !in constraint
    ensures 'w' !in Message(UniqueViolation(constraint))
  {
  }

  lemma SequenceExhaustedLacksW()
    ensures 'w' !in Message(SequenceExhausted)
  {
  }

  /** Both phrases hold a `w`; the prefix `addHall` puts before a message does not. */
  lemma PhrasesHoldW()
    ensures 'w' in MissingFieldsPhrase && 'w' in DuplicateNamePhrase
    ensures 'w' !in AddHallErrorPrefix
  {
    assert MissingFieldsPhrase[9] == 'w' && DuplicateNamePhrase[5] == 'w';
  }

  /** An insert error that does not quote the capacity is answered with the
      generic 500. */
  lemma InsertErrorAnswers500(e: DbError)
    requires || e == SequenceExhausted
             || e.ValueTooLong?
             || e == NotNullViolation(HallIdColumn)
             || (e.NotNullViolation? && exists c :: e.column == Schema.SqlName(c))
             || e == UniqueViolation(HallsPrimaryKey)
             || e == UniqueViolation(UniqueHallName)
    ensures AddHallReply(Threw(AddHallErrorPrefix + Message(e))) == Reply(500, ErrorBody(InternalServerError))
  {
    InsertErrorLacksW(e);
    PhrasesHoldW();
    var m := AddHallErrorPrefix + Message(e);
    MissingCharNotContained(m, MissingFieldsPhrase, 'w');
    MissingCharNotContained(m, DuplicateNamePhrase, 'w');
  }

  /** Once the id and the capacity have been read, every failure of
      `addHall` is answered with the generic 500: the 400 and 409 branches are
      never taken. */
  lemma AddHallFailsWith500(s: State, hallData: HallInput)
    requires BindId(hallData.hallId).Ok? && BindValue(Schema.Capacity, hallData.capacity).Ok?
    ensures var reply := AddHallResponse(s, hallData).0;
      reply.status != 201 ==> reply == Reply(500, ErrorBody(InternalServerError))
  {
    var o := ExecInsertHall(s, hallData).1;
    InsertHallErrors(s, hallData);
    if o.Failed? {
      InsertErrorAnswers500(o.error);
    }
  }

  /** A hall whose name is taken is refused with 500, not 409. */
  lemma AddHallDuplicateNameAnswers500(s: State, hallData: HallInput, k: int)
    requires Valid(s) && k in s.tables.halls
    requires hallData.hallName == Str(s.tables.halls[k].hallName)
    requires BindId(hallData.hallId).Ok? && BindValue(Schema.Capacity, hallData.capacity).Ok?
    ensures AddHallResponse(s, hallData).0 == Reply(500, ErrorBody(InternalServerError))
    ensures AddHallResponse(s, hallData).1.tables == s.tables
  {
    AddHallDuplicateName(s, hallData, k);
    AddHallFailsWith500(s, hallData);
  }

  /** A hall without a name is refused with 500, not 400. */
  lemma AddHallMissingNameAnswers500(s: State, hallData: HallInput)
    requires Valid(s)
    requires hallData.hallName.Undefined? || hallData.hallName.Null?
    requires BindId(hallData.hallId).Ok? && BindValue(Schema.Capacity, hallData.capacity).Ok?
    ensures AddHallResponse(s, hallData).0 == Reply(500, ErrorBody(InternalServerError))
    ensures AddHallResponse(s, hallData).1.tables == s.tables
  {
    InsertHallEffect(s, hallData);
    AddHallFailsWith500(s, hallData);
  }

  /** The conflict phrase reaches the answer only through the caller's own
      text: a capacity that reads "Hall with this name already exists." is
      answered 409 and nothing is inserted. */
  lemma AddHallCapacityQuoted(s: State, hallData: HallInput)
    requires BindId(hallData.hallId).Ok? && hallData.capacity == Str(DuplicateNamePhrase)
    ensures AddHallResponse(s, hallData)
         == (Reply(409, ErrorBody(AddHallErrorPrefix + Message(InvalidInteger(DuplicateNamePhrase)))), s)
  {
    PhraseIsNotInteger();
    InsertRefusedBeforeDraw(s, hallData);
    QuotedPhraseAnswers409();
  }

  /** So is an id that reads as the phrase: it is refused before any id is
      drawn. */
  lemma AddHallIdQuoted(s: State, hallData: HallInput)
    requires hallData.hallId == Str(DuplicateNamePhrase)
    ensures AddHallResponse(s, hallData)
         == (Reply(409, ErrorBody(AddHallErrorPrefix + Message(InvalidInteger(DuplicateNamePhrase)))), s)
  {
    PhraseIsNotInteger();
    InsertRefusedBeforeDraw(s, hallData);
    QuotedPhraseAnswers409();
  }

  /** The phrase is not integer input. */
  lemma PhraseIsNotInteger()
    ensures Int4In(DuplicateNamePhrase) == Fail(InvalidInteger(DuplicateNamePhrase))
  {
    var t := DuplicateNamePhrase;
    assert t[0] == 'H';
    assert SkipSpaces(t) == t;
    assert Unsigned(t) == t;
    assert LeadingDigits(t) == "";
  }

  /** A message quoting the phrase is answered 409. */
  lemma QuotedPhraseAnswers409()
    ensures var m := AddHallErrorPrefix + Message(InvalidInteger(DuplicateNamePhrase));
      AddHallReply(Threw(m)) == Reply(409, ErrorBody(m))
  {
    var t := DuplicateNamePhrase;
    var a := AddHallErrorPrefix + "invalid input syntax " + "for type integer: \"";
    var m := AddHallErrorPrefix + Message(InvalidInteger(t));
    assert m == a + t + "\"";
    InfixContained(a, t, "\"");
    QuotedPiecesLackQ();
    MissingCharNotContained(m, MissingFieldsPhrase, 'q');
  }

  /** The pieces of that message hold no `q`; the missing-fields phrase does. */
  lemma QuotedPiecesLackQ()
    ensures 'q' !in AddHallErrorPrefix + "invalid input syntax " + "for type integer: \""
    ensures 'q' !in DuplicateNamePhrase + "\""
    ensures 'q' in MissingFieldsPhrase
  {
    assert MissingFieldsPhrase[16] == 'q';
  }

  // ---------------------------------------------------------------------------
  // deleteHall

  /** The answer to what the delete returned or threw: 200 with the message,
      404 with the message when it reports no hall found, a generic 500
      otherwise. */
  function DeleteHallReply(r: Thrown<string>): (reply: Reply)
    ensures reply.status in {200, 404, 500}
    ensures reply.status == 200 <==> r.Returned?
    ensures reply.status == 404 <==> r.Threw? && Contains(r.message, NoHallFoundPhrase)
    ensures r.Returned? ==> reply.body == MessageBody(r.value)
    ensures reply.status == 404 ==> reply.body == ErrorBody(r.message)
    ensures reply.status == 500 ==> reply.body == ErrorBody(InternalServerError)
  {
    match r
    case Returned(m) => Reply(200, MessageBody(m))
    case Threw(m) =>
      if Contains(m, NoHallFoundPhrase) then Reply(404, ErrorBody(m))
      else Reply(500, ErrorBody(InternalServerError))
  }

  /** `deleteHall` on a snapshot: a falsy `hallId` is refused before any
      query; otherwise the id `parseInt` reads from its text is deleted. Only
      a 200 answer comes with a changed database. */
  function DeleteHallResponse(s: State, hallId: JsValue): (r: (Reply, State))
    ensures r.0.status in {200, 400, 404, 500}
    ensures r.0.status == 400 <==> !Truthy(hallId)
    ensures r.0.status != 200 ==> r.1 == s
    ensures r.1.nextHallId == s.nextHallId
  {
    if !Truthy(hallId) then (Reply(400, ErrorBody(MissingHallIdError)), s)
    else
      var u := Queries.DeleteHallByName(s, ParseInt(ToText(hallId)));
      (DeleteHallReply(u.0), u.1)
  }

  /** `deleteHall(req, res)`, the request body's `hallId` being `hallId`. */
  method DeleteHall(store: Store, hallId: JsValue) returns (reply: Reply)
    requires store.Valid()
    modifies store
    ensures store.Valid()
    ensures (reply, store.State()) == DeleteHallResponse(old(store.State()), hallId)
  {
    if !Truthy(hallId) {
      return Reply(400, ErrorBody(MissingHallIdError));
    }
    var id := ParseInt(ToText(hallId));
    var result := store.DeleteHallByName(id);
    reply := DeleteHallReply(result);
  }

  /** A missing or falsy `hallId` is answered 400 and deletes nothing. */
  lemma DeleteHallWithoutId(s: State, hallId: JsValue)
    requires !Truthy(hallId)
    ensures DeleteHallResponse(s, hallId) == (Reply(400, ErrorBody(MissingHallIdError)), s)
  {
  }

  /** What `deleteHall` answers for the number `parseInt` reads: 200 and the
      hall removed when it names a hall; 404 with the query's message when it
      fits in 32 bits but names none; a generic 500 when it is `NaN` or out of
      range. Only the 200 answer changes the database. */
  lemma DeleteHallAnswers(s: State, hallId: JsValue)
    requires Valid(s) && Truthy(hallId)
    ensures var p := ParseInt(ToText(hallId));
      var (reply, s') := DeleteHallResponse(s, hallId);
      && Valid(s')
      && (p.Num? && p.n in s.tables.halls ==>
            && reply == Reply(200, MessageBody(DeletedMessage(p)))
            && s' == s.(tables := Schema.DeleteHall(s.tables, p.n)))
      && (p.Num? && Schema.IsInt32(p.n) && p.n !in s.tables.halls ==>
            reply == Reply(404, ErrorBody(NoHallWithIdMessage(p))) && s' == s)
      && (p.NaN? || !Schema.IsInt32(p.n) ==>
            reply == Reply(500, ErrorBody(InternalServerError)) && s' == s)
  {
    var p := ParseInt(ToText(hallId));
    DeleteHallByNameEffect(s, p);
    if p.NaN? {
      DeleteNaNId(s);
    } else if !Schema.IsInt32(p.n) {
      DeleteOutOfRangeId(s, p.n);
    } else {
      Int4InOfIntText(p.n);
      assert BindKey(p) == Ok(Some(p.n));
      if p.n !in s.tables.halls {
        NotFoundAnswers404(p);
      }
    }
  }

  /** An id `parseInt` could not read is answered 500. */
  lemma DeleteNaNId(s: State)
    ensures Queries.DeleteHallByName(s, NaN) == (Threw(Message(InvalidInteger("NaN"))), s)
    ensures DeleteHallReply(Threw(Message(InvalidInteger("NaN")))) == Reply(500, ErrorBody(InternalServerError))
  {
    NaNIsNotInteger();
    NaNMessageLacksH();
    NotFoundPhraseAbsent(Message(InvalidInteger("NaN")));
  }

  lemma NaNIsNotInteger()
    ensures BindKey(NaN) == Fail(InvalidInteger("NaN"))
  {
    assert ToText(NaN) == "NaN" && "NaN"[0] == 'N';
    Int4InWithoutStart("NaN");
  }

  /** An id beyond 32 bits is answered 500. */
  lemma DeleteOutOfRangeId(s: State, n: int)
    requires !Schema.IsInt32(n)
    ensures Queries.DeleteHallByName(s, Num(n)) == (Threw(Message(IntegerOutOfRange(IntToText(n)))), s)
    ensures DeleteHallReply(Threw(Message(IntegerOutOfRange(IntToText(n))))) == Reply(500, ErrorBody(InternalServerError))
  {
    Int4InOfIntText(n);
    assert BindKey(Num(n)) == Fail(IntegerOutOfRange(IntToText(n)));
    RangeMessageLacksH(n);
    NotFoundPhraseAbsent(Message(IntegerOutOfRange(IntToText(n))));
  }

  lemma NaNMessageLacksH()
    ensures 'h' !in Message(InvalidInteger("NaN"))
  {
  }

  lemma RangeMessageLacksH(n: int)
    ensures 'h' !in Message(IntegerOutOfRange(IntToText(n)))
  {
    IntTextLacks(n, 'h');
  }

  /** The query's message for a missing id is answered 404. */
  lemma NotFoundAnswers404(p: JsValue)
    ensures DeleteHallReply(Threw(NoHallWithIdMessage(p))) == Reply(404, ErrorBody(NoHallWithIdMessage(p)))
  {
    var m := NoHallWithIdMessage(p);
    assert m == NoHallFoundPhrase + (" with the id \"" + ToText(p) + "\"");
    PrefixContained(m, NoHallFoundPhrase);
  }

  /** A text without a lower-case `h` does not report a hall not found. */
  lemma NotFoundPhraseAbsent(m: string)
    requires 'h' !in m
    ensures !Contains(m, NoHallFoundPhrase)
  {
    assert NoHallFoundPhrase[3] == 'h';
    MissingCharNotContained(m, NoHallFoundPhrase, 'h');
  }

  // ---------------------------------------------------------------------------
  // updateHallEntry

  /** The message of the TypeError thrown by calling `req.status`, which is
      not a function. */
  const RequestStatusTypeError := "req.status is not a function"

  /** The answer `updateHallEntry` gives as written: a returned message goes
      to `req.status(200)`, which throws, so every request is answered 500. */
  function UpdateHallEntryReplyAsWritten(r: Thrown<string>): (reply: Reply)
    ensures reply.status == 500
    ensures reply.body.ErrorBody?
    ensures r.Returned? ==> reply.body.error == RequestStatusTypeError
  {
    match r
    case Returned(_) => Reply(500, ErrorBody(RequestStatusTypeError))
    case Threw(m) => Reply(500, ErrorBody(m))
  }

  /** The answer `updateHallEntry` evidently means to give: 200 with the
      `{ message }` object `updateHall` returns, or 500 with the thrown
      message. */
  function UpdateHallEntryReply(r: Thrown<string>): (reply: Reply)
    ensures reply.status in {200, 500}
    ensures reply.status == 200 <==> r.Returned?
    ensures r.Returned? ==> reply.body == MessageBody(r.value)
    ensures r.Threw? ==> reply.body == ErrorBody(r.message)
  {
    match r
    case Returned(m) => Reply(200, MessageBody(m))
    case Threw(m) => Reply(500, ErrorBody(m))
  }

  /** `updateHallEntry` on a snapshot, with the intended answer; only a 200
      answer comes with a changed database. */
  function UpdateHallEntryResponse(s: State, hallId: JsValue, fieldName: JsValue, changes: JsValue): (r: (Reply, State))
    ensures r.0.status in {200, 500}
    ensures r.0.status == 200 ==> r.0.body == MessageBody(UpdatedMessage(hallId))
    ensures r.0.status != 200 ==> r.1 == s
    ensures ColumnNamed(fieldName).None? ==> r == (Reply(500, ErrorBody(InvalidColumnMessage(fieldName))), s)
  {
    var u := Queries.UpdateHall(s, hallId, fieldName, changes);
    (UpdateHallEntryReply(u.0), u.1)
  }

  /** `updateHallEntry(req, res)`, the body holding `hallId`, `field_name`
      and `changes`; it answers success with 200. */
  method UpdateHallEntry(store: Store, hallId: JsValue, fieldName: JsValue, changes: JsValue) returns (reply: Reply)
    requires store.Valid()
    modifies store
    ensures store.Valid()
    ensures (reply, store.State()) == UpdateHallEntryResponse(old(store.State()), hallId, fieldName, changes)
  {
    var result := store.UpdateHall(hallId, fieldName, changes);
    reply := UpdateHallEntryReply(result);
  }

  /** The intended answers: 200 with "Hall with ID … has been updated." exactly
      when the update reported that hall's row (a row set to its current value
      counts); otherwise 500 with the query's
      message and nothing changed, the invalid column's message for a column
      outside the allow-list. */
  lemma UpdateHallEntryAnswers(s: State, hallId: JsValue, fieldName: JsValue, changes: JsValue)
    requires Valid(s)
    ensures var (reply, s') := UpdateHallEntryResponse(s, hallId, fieldName, changes);
      && Valid(s')
      && (reply.status == 200 ==>
            && reply.body == MessageBody(UpdatedMessage(hallId))
            && ColumnNamed(fieldName).Some?
            && BindKey(hallId).Ok? && BindKey(hallId).value.Some?
            && BindKey(hallId).value.value in s.tables.halls
            && s'.tables.halls.Keys == s.tables.halls.Keys
            && StoredFrom(ColumnNamed(fieldName).value,
                          Schema.Column(s'.tables.halls[BindKey(hallId).value.value], ColumnNamed(fieldName).value),
                          changes)
            && forall c | c != ColumnNamed(fieldName).value ::
                 Schema.Column(s'.tables.halls[BindKey(hallId).value.value], c)
                 == Schema.Column(s.tables.halls[BindKey(hallId).value.value], c))
      && (reply.status != 200 ==> reply.status == 500 && s' == s)
      && (ColumnNamed(fieldName).None? ==>
            reply == Reply(500, ErrorBody(InvalidColumnMessage(fieldName))))
  {
    UpdateHallKeepsValid(s, hallId, fieldName, changes);
    UpdateHallKeepsKeys(s, hallId, fieldName, changes);
    UpdateHallInvalidColumn(s, hallId, fieldName, changes);
    var (r, s') := Queries.UpdateHall(s, hallId, fieldName, changes);
    if r.Returned? {
      UpdateHallChangesOneColumn(s, hallId, fieldName, changes);
    }
  }

  /** As written, a change of a hall's facility is made and yet answered 500
      with the TypeError's message; the intended answer is 200. */
  lemma UpdateAppliedYetAnswered500(s: State, k: int, facility: string)
    requires Valid(s) && k in s.tables.halls
    ensures var (r, s') := Queries.UpdateHall(s, Num(k), Str("hallFacility"), Str(facility));
      && r == Returned(UpdatedMessage(Num(k)))
      && k in s'.tables.halls && s'.tables.halls[k].hallFacility == facility
      && UpdateHallEntryReplyAsWritten(r) == Reply(500, ErrorBody(RequestStatusTypeError))
      && UpdateHallEntryReply(r) == Reply(200, MessageBody(UpdatedMessage(Num(k))))
  {
    assert Schema.HallFits(s.tables.halls[k]);
    ColumnNamedExactly(Schema.HallFacility, Str("hallFacility"));
    BindKeyOfInt(k);
    UpdateFacility(s.tables, Num(k), k, facility);
  }
}
