/** The relational schema: six tables, their column bounds, the unique hall
    name, the foreign keys with ON DELETE CASCADE, and the column defaults of a
    reservation. A database snapshot is a value of type Tables. */
module Schema {
  import opened Basics

  /** `integer` and `serial` columns hold 32-bit signed integers. */
  const Int32Min: int := -0x8000_0000
  const Int32Max: int := 0x7fff_ffff

  predicate IsInt32(n: int)
  {
    Int32Min <= n <= Int32Max
  }

  /** A nullable `varchar(n)` value. */
  predicate FitsOpt(s: Option<string>, n: nat)
  {
    s.None? || |s.value| <= n
  }

  // ---------------------------------------------------------------------------
  // rows

  datatype User = User(userId: int, username: string, email: string,
                       phoneNumber: Option<string>, password: string, role: string)

  datatype ReservationHolder = ReservationHolder(reserverId: int, reserverName: string,
                                                 reserverPhoneNumber: Option<string>,
                                                 reserverEmail: Option<string>, userId: Option<int>)

  /** A row of `halls`; every column is NOT NULL. (`type` is spelled `hallType`.) */
  datatype Hall = Hall(hallId: int, hallName: string, hallFacility: string, capacity: int,
                       hallType: string, primaryInCharge: string)

  /** `date`, `start_time` and `end_time` are kept as the text the database prints. */
  datatype Reservation = Reservation(reservationId: int, reserverId: int, hallId: int,
                                     date: string, startTime: string, endTime: string,
                                     purpose: Option<string>, status: Option<string>,
                                     foodRequirement: Option<bool>)

  datatype Notification = Notification(notificationId: int, reservationId: int,
                                       notificationType: Option<string>,
                                       recipientEmail: Option<string>, timestamp: Option<int>)

  datatype AuditLogEntry = AuditLogEntry(logId: int, reservationId: int, action: Option<string>,
                                         performedBy: int, timestamp: Option<int>)

  /** Column bounds of each table (varchar lengths, 32-bit integers). The role
      enum is declared but the column is a plain varchar(20). */
  predicate UserFits(u: User)
  {
    && IsInt32(u.userId) && |u.username| <= 50 && |u.email| <= 100
    && FitsOpt(u.phoneNumber, 15) && |u.password| <= 255 && |u.role| <= 20
  }

  predicate HolderFits(h: ReservationHolder)
  {
    && IsInt32(h.reserverId) && |h.reserverName| <= 100
    && FitsOpt(h.reserverPhoneNumber, 15) && FitsOpt(h.reserverEmail, 100)
    && (h.userId.Some? ==> IsInt32(h.userId.value))
  }

  predicate HallFits(h: Hall)
  {
    && IsInt32(h.hallId) && |h.hallName| <= 100 && IsInt32(h.capacity)
    && |h.hallType| <= 10 && |h.primaryInCharge| <= 100
  }

  predicate ReservationFits(r: Reservation)
  {
    && IsInt32(r.reservationId) && IsInt32(r.reserverId) && IsInt32(r.hallId)
    && FitsOpt(r.purpose, 255) && FitsOpt(r.status, 20)
  }

  predicate NotificationFits(n: Notification)
  {
    && IsInt32(n.notificationId) && IsInt32(n.reservationId)
    && FitsOpt(n.notificationType, 50) && FitsOpt(n.recipientEmail, 100)
  }

  predicate AuditLogFits(a: AuditLogEntry)
  {
    IsInt32(a.logId) && IsInt32(a.reservationId) && FitsOpt(a.action, 50) && IsInt32(a.performedBy)
  }

  // ---------------------------------------------------------------------------
  // the columns of `halls` that the query layer may address

  datatype HallColumn = HallName | HallFacility | Capacity | HallType | PrimaryInCharge

  /** The property name the query layer uses for the column. */
  function Property(c: HallColumn): string
  {
    match c
    case HallName => "hallName"
    case HallFacility => "hallFacility"
    case Capacity => "capacity"
    case HallType => "type"
    case PrimaryInCharge => "primaryInCharge"
  }

  /** The column's name in the database. */
  function SqlName(c: HallColumn): string
  {
    match c
    case HallName => "hall_name"
    case HallFacility => "hall_facility"
    case Capacity => "capacity"
    case HallType => "type"
    case PrimaryInCharge => "primary_in_charge"
  }

  /** The varchar length of a column; `hall_facility` is unbounded text and
      `capacity` an integer. */
  function Limit(c: HallColumn): Option<nat>
  {
    match c
    case HallName => Some(100)
    case HallFacility => None
    case Capacity => None
    case HallType => Some(10)
    case PrimaryInCharge => Some(100)
  }

  /** A non-null column value. */
  datatype Cell = TextCell(text: string) | IntCell(n: int)

  /** `capacity` holds an integer, the other four columns text. */
  predicate CellFits(c: HallColumn, v: Cell)
  {
    v.IntCell? <==> c == Capacity
  }

  /** The column's bound holds of the value: the varchar length, or 32 bits. */
  predicate CellWithin(c: HallColumn, v: Cell)
  {
    match v
    case IntCell(n) => IsInt32(n)
    case TextCell(s) => Limit(c).None? || |s| <= Limit(c).value
  }

  function Column(h: Hall, c: HallColumn): (v: Cell)
    ensures CellFits(c, v)
  {
    match c
    case HallName => TextCell(h.hallName)
    case HallFacility => TextCell(h.hallFacility)
    case Capacity => IntCell(h.capacity)
    case HallType => TextCell(h.hallType)
    case PrimaryInCharge => TextCell(h.primaryInCharge)
  }

  /** The row with one column replaced: reading that column gives the new
      value, every other column and the key are as before. */
  function SetColumn(h: Hall, c: HallColumn, v: Cell): (h': Hall)
    requires CellFits(c, v)
    ensures Column(h', c) == v
    ensures forall c' :: c' != c ==> Column(h', c') == Column(h, c')
    ensures h'.hallId == h.hallId
  {
    match c
    case HallName => h.(hallName := v.text)
    case HallFacility => h.(hallFacility := v.text)
    case Capacity => h.(capacity := v.n)
    case HallType => h.(hallType := v.text)
    case PrimaryInCharge => h.(primaryInCharge := v.text)
  }

  /** A hall satisfies the schema's bounds exactly when its key and each of
      its five columns do. */
  lemma HallFitsByColumns(h: Hall)
    ensures HallFits(h) <==> IsInt32(h.hallId) && forall c :: CellWithin(c, Column(h, c))
  {
    if IsInt32(h.hallId) && forall c :: CellWithin(c, Column(h, c)) {
      assert CellWithin(HallName, Column(h, HallName));
      assert CellWithin(Capacity, Column(h, Capacity));
      assert CellWithin(HallType, Column(h, HallType));
      assert CellWithin(PrimaryInCharge, Column(h, PrimaryInCharge));
    }
  }

  // ---------------------------------------------------------------------------
  // snapshots

  datatype Tables = Tables(users: map<int, User>, holders: map<int, ReservationHolder>,
                           halls: map<int, Hall>, reservations: map<int, Reservation>,
                           notifications: map<int, Notification>, auditLog: map<int, AuditLogEntry>)

  const Empty := Tables(map[], map[], map[], map[], map[], map[])

  /** Every table is keyed by its primary key, so a key names at most one row. */
  predicate Keyed(t: Tables)
  {
    && (forall k | k in t.users :: t.users[k].userId == k)
    && (forall k | k in t.holders :: t.holders[k].reserverId == k)
    && (forall k | k in t.halls :: t.halls[k].hallId == k)
    && (forall k | k in t.reservations :: t.reservations[k].reservationId == k)
    && (forall k | k in t.notifications :: t.notifications[k].notificationId == k)
    && (forall k | k in t.auditLog :: t.auditLog[k].logId == k)
  }

  predicate RowsFit(t: Tables)
  {
    && (forall k | k in t.users :: UserFits(t.users[k]))
    && (forall k | k in t.holders :: HolderFits(t.holders[k]))
    && (forall k | k in t.halls :: HallFits(t.halls[k]))
    && (forall k | k in t.reservations :: ReservationFits(t.reservations[k]))
    && (forall k | k in t.notifications :: NotificationFits(t.notifications[k]))
    && (forall k | k in t.auditLog :: AuditLogFits(t.auditLog[k]))
  }

  /** The `unique_hall_name` index: no two halls share a name. */
  predicate UniqueHallNames(halls: map<int, Hall>)
  {
    forall a, b | a in halls && b in halls && halls[a].hallName == halls[b].hallName :: a == b
  }

  /** Every foreign key names an existing row. */
  predicate ReferencesResolve(t: Tables)
  {
    && (forall k | k in t.holders && t.holders[k].userId.Some? :: t.holders[k].userId.value in t.users)
    && (forall k | k in t.reservations ::
          t.reservations[k].reserverId in t.holders && t.reservations[k].hallId in t.halls)
    && (forall k | k in t.notifications :: t.notifications[k].reservationId in t.reservations)
    && (forall k | k in t.auditLog ::
          t.auditLog[k].reservationId in t.reservations && t.auditLog[k].performedBy in t.users)
  }

  /** Every constraint the schema declares. */
  predicate Consistent(t: Tables)
  {
    Keyed(t) && RowsFit(t) && UniqueHallNames(t.halls) && ReferencesResolve(t)
  }

  /** Adding a hall under a fresh key, within the column bounds and with a
      name no hall has, keeps every constraint. */
  lemma AddHallConsistent(t: Tables, h: Hall)
    requires Consistent(t) && HallFits(h) && h.hallId !in t.halls
    requires forall k | k in t.halls :: t.halls[k].hallName != h.hallName
    ensures Consistent(t.(halls := t.halls[h.hallId := h]))
  {
  }

  /** Replacing a hall's row, within the column bounds and with a name no
      other hall has, keeps every constraint. */
  lemma ReplaceHallConsistent(t: Tables, h: Hall)
    requires Consistent(t) && HallFits(h) && h.hallId in t.halls
    requires forall k | k in t.halls && k != h.hallId :: t.halls[k].hallName != h.hallName
    ensures Consistent(t.(halls := t.halls[h.hallId := h]))
  {
  }

  // ---------------------------------------------------------------------------
  // ON DELETE CASCADE

  /** Removes the reservations in `gone` together with the notification and
      audit-log rows that reference them. */
  function WithoutReservations(t: Tables, gone: set<int>): (t': Tables)
    ensures t'.users == t.users && t'.holders == t.holders && t'.halls == t.halls
    ensures forall k :: k in t'.reservations <==> k in t.reservations && k !in gone
    ensures forall k :: k in t'.notifications <==>
              k in t.notifications && t.notifications[k].reservationId !in gone
    ensures forall k :: k in t'.auditLog <==> k in t.auditLog && t.auditLog[k].reservationId !in gone
    ensures forall k | k in t'.reservations :: t'.reservations[k] == t.reservations[k]
    ensures forall k | k in t'.notifications :: t'.notifications[k] == t.notifications[k]
    ensures forall k | k in t'.auditLog :: t'.auditLog[k] == t.auditLog[k]
  {
    t.(reservations := map k | k in t.reservations && k !in gone :: t.reservations[k],
       notifications := map k | k in t.notifications && t.notifications[k].reservationId !in gone
                                  :: t.notifications[k],
       auditLog := map k | k in t.auditLog && t.auditLog[k].reservationId !in gone :: t.auditLog[k])
  }

  /** Deleting a reservation also deletes its notifications and audit-log rows. */
  function DeleteReservation(t: Tables, reservationId: int): Tables
  {
    WithoutReservations(t, {reservationId})
  }

  /** Deleting a hall also deletes every reservation of that hall, and so on. */
  function DeleteHall(t: Tables, hallId: int): Tables
  {
    WithoutReservations(t.(halls := t.halls - {hallId}),
                        set k | k in t.reservations && t.reservations[k].hallId == hallId)
  }

  /** Deleting a reservation holder also deletes every reservation it holds. */
  function DeleteHolder(t: Tables, reserverId: int): Tables
  {
    WithoutReservations(t.(holders := t.holders - {reserverId}),
                        set k | k in t.reservations && t.reservations[k].reserverId == reserverId)
  }

  /** Deleting a user also deletes the reservation holders linked to it (and
      their reservations) and the audit-log rows it performed. */
  function DeleteUser(t: Tables, userId: int): Tables
  {
    var holdersGone := set k | k in t.holders && t.holders[k].userId == Some(userId);
    WithoutReservations(
      t.(users := t.users - {userId},
         holders := map k | k in t.holders && k !in holdersGone :: t.holders[k],
         auditLog := map k | k in t.auditLog && t.auditLog[k].performedBy != userId :: t.auditLog[k]),
      set k | k in t.reservations && t.reservations[k].reserverId in holdersGone)
  }

  // ---------------------------------------------------------------------------
  // properties of the cascades

  /** Removing a set of reservations by cascade keeps every constraint when the
      rows left behind still have what they reference. */
  lemma WithoutReservationsConsistent(t: Tables, gone: set<int>)
    requires Keyed(t) && RowsFit(t) && UniqueHallNames(t.halls)
    requires forall k | k in t.holders && t.holders[k].userId.Some? :: t.holders[k].userId.value in t.users
    requires forall k | k in t.reservations && k !in gone ::
               t.reservations[k].reserverId in t.holders && t.reservations[k].hallId in t.halls
    requires forall k | k in t.notifications :: t.notifications[k].reservationId in t.reservations
    requires forall k | k in t.auditLog :: t.auditLog[k].reservationId in t.reservations
    requires forall k | k in t.auditLog :: t.auditLog[k].performedBy in t.users
    ensures Consistent(WithoutReservations(t, gone))
  {
  }

  /** Deleting a hall removes exactly that hall and the reservations that
      reference it; users and holders stay; the database stays consistent. */
  lemma DeleteHallCascades(t: Tables, hallId: int)
    requires Consistent(t)
    ensures var t' := DeleteHall(t, hallId);
      && Consistent(t')
      && t'.halls == t.halls - {hallId}
      && t'.users == t.users && t'.holders == t.holders
      && (forall k :: k in t'.reservations <==> k in t.reservations && t.reservations[k].hallId != hallId)
  {
    var gone := set k | k in t.reservations && t.reservations[k].hallId == hallId;
    var t0 := t.(halls := t.halls - {hallId});
    assert UniqueHallNames(t0.halls);
    WithoutReservationsConsistent(t0, gone);
  }

  /** Deleting a reservation removes it with its notifications and audit-log
      rows and nothing else; the database stays consistent. */
  lemma DeleteReservationCascades(t: Tables, reservationId: int)
    requires Consistent(t)
    ensures var t' := DeleteReservation(t, reservationId);
      && Consistent(t')
      && t'.users == t.users && t'.holders == t.holders && t'.halls == t.halls
      && t'.reservations == t.reservations - {reservationId}
      && (forall k :: k in t'.notifications <==>
            k in t.notifications && t.notifications[k].reservationId != reservationId)
      && (forall k :: k in t'.auditLog <==> k in t.auditLog && t.auditLog[k].reservationId != reservationId)
  {
    WithoutReservationsConsistent(t, {reservationId});
  }

  /** Deleting a reservation holder removes the reservations it holds; the
      database stays consistent. */
  lemma DeleteHolderCascades(t: Tables, reserverId: int)
    requires Consistent(t)
    ensures var t' := DeleteHolder(t, reserverId);
      && Consistent(t')
      && t'.holders == t.holders - {reserverId}
      && (forall k :: k in t'.reservations <==>
            k in t.reservations && t.reservations[k].reserverId != reserverId)
  {
    var gone := set k | k in t.reservations && t.reservations[k].reserverId == reserverId;
    WithoutReservationsConsistent(t.(holders := t.holders - {reserverId}), gone);
  }

  /** Deleting a user removes the holders linked to it and the audit-log rows
      it performed; no remaining row references the user; the database stays
      consistent. */
  lemma DeleteUserCascades(t: Tables, userId: int)
    requires Consistent(t)
    ensures var t' := DeleteUser(t, userId);
      && Consistent(t')
      && t'.users == t.users - {userId}
      && t'.halls == t.halls
      && (forall k :: k in t'.holders <==> k in t.holders && t.holders[k].userId != Some(userId))
      && (forall k | k in t'.auditLog :: t'.auditLog[k].performedBy != userId)
  {
    var holdersGone := set k | k in t.holders && t.holders[k].userId == Some(userId);
    var t0 := t.(users := t.users - {userId},
                 holders := map k | k in t.holders && k !in holdersGone :: t.holders[k],
                 auditLog := map k | k in t.auditLog && t.auditLog[k].performedBy != userId :: t.auditLog[k]);
    var gone := set k | k in t.reservations && t.reservations[k].reserverId in holdersGone;
    UserRemovedBase(t, userId, holdersGone, t0, gone);
    WithoutReservationsConsistent(t0, gone);
    assert DeleteUser(t, userId) == WithoutReservations(t0, gone);
  }

  lemma UserRemovedBase(t: Tables, userId: int, holdersGone: set<int>, t0: Tables, gone: set<int>)
    requires Consistent(t)
    requires holdersGone == set k | k in t.holders && t.holders[k].userId == Some(userId)
    requires t0 == t.(users := t.users - {userId},
                      holders := map k | k in t.holders && k !in holdersGone :: t.holders[k],
                      auditLog := map k | k in t.auditLog && t.auditLog[k].performedBy != userId :: t.auditLog[k])
    requires gone == set k | k in t.reservations && t.reservations[k].reserverId in holdersGone
    ensures Keyed(t0) && RowsFit(t0) && UniqueHallNames(t0.halls)
    ensures forall k | k in t0.holders && t0.holders[k].userId.Some? :: t0.holders[k].userId.value in t0.users
    ensures forall k | k in t0.reservations && k !in gone ::
              t0.reservations[k].reserverId in t0.holders && t0.reservations[k].hallId in t0.halls
    ensures forall k | k in t0.notifications :: t0.notifications[k].reservationId in t0.reservations
    ensures forall k | k in t0.auditLog :: t0.auditLog[k].reservationId in t0.reservations
    ensures forall k | k in t0.auditLog :: t0.auditLog[k].performedBy in t0.users
  {
  }

  // ---------------------------------------------------------------------------
  // column defaults of a reservation

  /** How an insert supplies a nullable column: left out, NULL, or a value. */
  datatype Supplied<T> = Omitted | ExplicitNull | Provided(value: T)

  const StatusDefault := "pending"
  const FoodRequirementDefault := false

  /** The values of an insert into `reservation`. */
  datatype ReservationDraft = ReservationDraft(reserverId: int, hallId: int, date: string,
                                               startTime: string, endTime: string,
                                               purpose: Supplied<string>, status: Supplied<string>,
                                               foodRequirement: Supplied<bool>)

  /** A column's stored value: its default when the insert leaves it out. */
  function Stored<T>(s: Supplied<T>, default: Option<T>): Option<T>
  {
    match s
    case Omitted => default
    case ExplicitNull => None
    case Provided(v) => Some(v)
  }

  /** The row an insert of `d` stores under the key `id`. */
  function NewReservation(id: int, d: ReservationDraft): Reservation
  {
    Reservation(id, d.reserverId, d.hallId, d.date, d.startTime, d.endTime,
                Stored(d.purpose, None), Stored(d.status, Some(StatusDefault)),
                Stored(d.foodRequirement, Some(FoodRequirementDefault)))
  }

  /** A reservation inserted without `status` or `food_requirement` gets
      "pending" and false; supplied values are stored as given. */
  lemma ReservationDefaults(id: int, d: ReservationDraft)
    ensures d.status.Omitted? ==> NewReservation(id, d).status == Some("pending")
    ensures d.foodRequirement.Omitted? ==> NewReservation(id, d).foodRequirement == Some(false)
    ensures d.purpose.Omitted? ==> NewReservation(id, d).purpose == None
    ensures d.status.Provided? ==> NewReservation(id, d).status == Some(d.status.value)
    ensures d.foodRequirement.Provided? ==>
              NewReservation(id, d).foodRequirement == Some(d.foodRequirement.value)
  {
  }
}
