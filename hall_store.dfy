/** The database as a mutable object: the tables and the `halls.hall_id`
    sequence, changed in place by the three hall queries. Each method performs
    one statement and then returns or throws as the query layer does; its
    contract ties the result and the new state to the functions of `Queries`,
    whose properties are proved there. */
module HallStore {
  import opened Basics
  import opened Js
  import opened Schema
  import opened Database
  import Queries

  class Store {
    var tables: Tables
    var nextHallId: int

    /** The store's contents as a value. */
    function State(): State
      reads this
    {
      Database.State(tables, nextHallId)
    }

    /** The schema's constraints hold and the sequence is within its range. */
    ghost predicate Valid()
      reads this
    {
      Database.Valid(State())
    }

    /** A fresh database: every table empty, the sequence at 1. */
    constructor()
      ensures Valid()
      ensures tables == Empty && nextHallId == 1
    {
      tables := Empty;
      nextHallId := 1;
    }

    /** `addHall(hallData)`. */
    method AddHall(hallData: HallInput) returns (r: Thrown<Queries.InsertResult>)
      requires Valid()
      modifies this
      ensures Valid()
      ensures (r, State()) == Queries.AddHall(old(State()), hallData)
    {
      Queries.AddHallEffect(State(), hallData);
      var (s', outcome) := ExecInsertHall(State(), hallData);
      tables := s'.tables;
      nextHallId := s'.nextHallId;
      match outcome {
        case Count(n) =>
          r := Returned(Queries.InsertResult([], n));
        case Failed(e) =>
          r := Threw(Queries.AddHallErrorPrefix + Message(e));
      }
    }

    /** `deleteHallByName(hallId)`. */
    method DeleteHallByName(hallId: JsValue) returns (r: Thrown<string>)
      requires Valid()
      modifies this
      ensures Valid()
      ensures (r, State()) == Queries.DeleteHallByName(old(State()), hallId)
    {
      ghost var before := State();
      DeleteHallKeepsValid(before, hallId);
      var (t', outcome) := ExecDeleteHall(tables, hallId);
      tables := t';
      assert State() == Queries.DeleteHallByName(before, hallId).1;
      assert Valid();
      if outcome.Failed? {
        r := Threw(Message(outcome.error));
      } else if outcome.rows == 0 {
        r := Threw(Queries.NoHallWithIdMessage(hallId));
      } else {
        r := Returned(Queries.DeletedMessage(hallId));
      }
    }

    /** `updateHall(hallId, columnName, newValue)`. */
    method UpdateHall(hallId: JsValue, columnName: JsValue, newValue: JsValue) returns (r: Thrown<string>)
      requires Valid()
      modifies this
      ensures Valid()
      ensures (r, State()) == Queries.UpdateHall(old(State()), hallId, columnName, newValue)
    {
      ghost var before := State();
      Queries.UpdateHallKeepsValid(before, hallId, columnName, newValue);
      var column := Queries.ColumnNamed(columnName);
      if column.None? {
        r := Threw(Queries.InvalidColumnMessage(columnName));
        return;
      }
      var (t', outcome) := ExecUpdateHall(tables, column.value, newValue, hallId);
      tables := t';
      assert State() == Queries.UpdateHall(before, hallId, columnName, newValue).1;
      if outcome.Failed? {
        r := Threw(Message(outcome.error));
      } else if outcome.rows == 0 {
        r := Threw(Queries.NoHallToUpdateMessage(hallId));
      } else {
        r := Returned(Queries.UpdatedMessage(hallId));
      }
    }
  }
}
