/**
 * The `results` table the recorder reads and writes: one row per train
 * sighting, keyed by an integer id the database assigns on insert.
 *
 * The table is an object whose row list changes in place. Only the three
 * operations the recorder uses are modelled: `find_one` with a text
 * comparison on `date`, `insert`, and `update` keyed on `id`.
 */
module Store {
  import opened Wrappers
  import opened Text

  /** A row of `results`. `kind` is the `type` column; `delay` is NULL until a delay is recorded. */
  datatype Row = Row(
    id: int,
    num: string,
    date: string,
    miss: string,
    term: string,
    etat: string,
    kind: string,
    fromGare: string,
    toGare: string,
    delay: Option<int>,
    weekday: int)

  /** The columns an update writes besides `id`: `etat`, `type`, and `delay` when it is given. */
  datatype Patch = Patch(etat: string, kind: string, delay: Option<int>)

  predicate UniqueIds(rows: seq<Row>) {
    forall i, j :: 0 <= i < j < |rows| ==> rows[i].id != rows[j].id
  }

  predicate HasId(rows: seq<Row>, id: int) {
    exists i :: 0 <= i < |rows| && rows[i].id == id
  }

  /** The largest id in the table, 0 for an empty table. */
  function MaxId(rows: seq<Row>): (m: int)
    ensures m >= 0
    ensures forall i :: 0 <= i < |rows| ==> rows[i].id <= m
    ensures m == 0 || HasId(rows, m)
  {
    if rows == [] then 0
    else
      var m := MaxId(rows[..|rows| - 1]);
      var last := rows[|rows| - 1].id;
      if last > m then last
      else
        assert m == 0 || HasId(rows, m) by {
          if m != 0 {
            var i :| 0 <= i < |rows| - 1 && rows[..|rows| - 1][i].id == m;
            assert rows[i].id == m;
          }
        }
        m
  }

  /** The id SQLite gives the next inserted row: one past the largest rowid in use. */
  function NextId(rows: seq<Row>): (id: int)
    ensures id >= 1 && !HasId(rows, id)
  {
    MaxId(rows) + 1
  }

  /** The row after an update: the patched columns change, every other column stays. */
  function Apply(r: Row, p: Patch): (u: Row)
    ensures u.id == r.id && u.num == r.num && u.date == r.date && u.miss == r.miss && u.term == r.term
    ensures u.fromGare == r.fromGare && u.toGare == r.toGare && u.weekday == r.weekday
    ensures u.etat == p.etat && u.kind == p.kind
    ensures u.delay == if p.delay.Some? then p.delay else r.delay
  {
    r.(etat := p.etat, kind := p.kind, delay := if p.delay.Some? then p.delay else r.delay)
  }

  /** `update(patch, ['id'])`: every row with the given id gets the patch. */
  function Updated(rows: seq<Row>, id: int, p: Patch): seq<Row>
  {
    seq(|rows|, i requires 0 <= i < |rows| => if rows[i].id == id then Apply(rows[i], p) else rows[i])
  }

  /** `date > limit` and `num = ...`, with `date` compared as text. */
  predicate Matches(r: Row, num: string, limit: string) {
    r.num == num && LexLess(limit, r.date)
  }

  /** What `find_one` may return: a matching row if there is one, nothing only if there is none. */
  predicate Lookup(rows: seq<Row>, num: string, limit: string, found: Option<Row>) {
    match found
    case None => forall i :: 0 <= i < |rows| ==> !Matches(rows[i], num, limit)
    case Some(r) => r in rows && Matches(r, num, limit)
  }

  class ResultsTable {
    var rows: seq<Row>

    /** Row ids are positive and unique, as SQLite rowids are. */
    ghost predicate Valid()
      reads this
    {
      UniqueIds(rows) && forall i :: 0 <= i < |rows| ==> rows[i].id >= 1
    }

    constructor ()
      ensures Valid() && rows == []
    {
      rows := [];
    }

    /** `find_one(date > limit, num=num)`: any matching row, in no particular order. */
    method FindOne(num: string, limit: string) returns (found: Option<Row>)
      ensures Lookup(rows, num, limit, found)
    {
      if exists i :: 0 <= i < |rows| && Matches(rows[i], num, limit) {
        var i :| 0 <= i < |rows| && Matches(rows[i], num, limit);
        found := Some(rows[i]);
      } else {
        found := None;
      }
    }

    /** `insert(row)`: the row is appended under a fresh id, which is returned. */
    method Insert(r: Row) returns (id: int)
      requires Valid()
      modifies this
      ensures Valid()
      ensures id == NextId(old(rows)) && rows == old(rows) + [r.(id := id)]
    {
      InsertedFresh(rows, r);
      id := NextId(rows);
      rows := rows + [r.(id := id)];
    }

    /** `update(patch, ['id'])`. */
    method Update(id: int, p: Patch)
      requires Valid()
      modifies this
      ensures Valid()
      ensures rows == Updated(old(rows), id, p)
    {
      UpdatedFrame(rows, id, p);
      rows := Updated(rows, id, p);
    }
  }

  // ---------------------------------------------------------------------------
  // Lemmas

  /**
   * An update keeps the row count and every id, leaves rows with other ids
   * alone, and changes only `etat`, `type` and `delay` of the row it targets.
   */
  lemma UpdatedFrame(rows: seq<Row>, id: int, p: Patch)
    ensures |Updated(rows, id, p)| == |rows|
    ensures forall i :: 0 <= i < |rows| ==> Updated(rows, id, p)[i].id == rows[i].id
    ensures forall i :: 0 <= i < |rows| && rows[i].id != id ==> Updated(rows, id, p)[i] == rows[i]
    ensures forall i :: 0 <= i < |rows| && rows[i].id == id ==> Updated(rows, id, p)[i] == Apply(rows[i], p)
    ensures UniqueIds(rows) ==> UniqueIds(Updated(rows, id, p))
  {
  }

  /** An insert under `NextId` keeps ids unique and positive. */
  lemma InsertedFresh(rows: seq<Row>, r: Row)
    requires UniqueIds(rows)
    ensures UniqueIds(rows + [r.(id := NextId(rows))])
  {
    var rs := rows + [r.(id := NextId(rows))];
    forall i, j | 0 <= i < j < |rs| ensures rs[i].id != rs[j].id {
      if j == |rows| {
        assert rows[i].id <= MaxId(rows);
      }
    }
  }
}
