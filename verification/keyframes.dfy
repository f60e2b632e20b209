/** The keyframe store: landmark ids with their world positions, kept in the
    insertion order of a Python `dict`, and the row-level loading logic of
    `load_keyframes` (data_setup.py). */
module Keyframes {
  import opened Common
  import opened Text

  datatype Keyframe = Keyframe(id: int, pos: Point)

  /** A `dict` from id to position, as the sequence of its items in iteration
      order. */
  type Table = seq<Keyframe>

  predicate DistinctIds(t: Table) {
    forall i, j :: 0 <= i < j < |t| ==> t[i].id != t[j].id
  }

  function Ids(t: Table): set<int> {
    set i | 0 <= i < |t| :: t[i].id
  }

  /** `keyframes[id]`; a later item wins, which never matters when the ids are
      distinct. */
  function Positions(t: Table): (m: map<int, Point>)
    ensures m.Keys == Ids(t)
  {
    if t == [] then map[] else
      var last := t[|t| - 1];
      var m := Positions(t[..|t| - 1]);
      assert t == t[..|t| - 1] + [last];
      IdsSnoc(t[..|t| - 1], last);
      m[last.id := last.pos]
  }

  lemma {:induction false} IdsSnoc(t: Table, k: Keyframe)
    ensures Ids(t + [k]) == Ids(t) + {k.id}
  {
    var u := t + [k];
    forall x ensures x in Ids(u) <==> x in Ids(t) + {k.id} {
      if x in Ids(u) {
        var i :| 0 <= i < |u| && u[i].id == x;
        if i < |t| { assert t[i].id == x; }
      }
      if x in Ids(t) {
        var i :| 0 <= i < |t| && t[i].id == x;
        assert u[i].id == x;
      }
      if x == k.id { assert u[|t|].id == x; }
    }
  }

  lemma {:induction false} PositionsOfItem(t: Table, i: int)
    requires DistinctIds(t) && 0 <= i < |t|
    ensures Positions(t)[t[i].id] == t[i].pos
  {
    if i < |t| - 1 {
      PositionsOfItem(t[..|t| - 1], i);
    }
  }

  /** The position of the item holding `id`. */
  function IndexOf(t: Table, id: int): (i: nat)
    requires id in Ids(t)
    ensures i < |t| && t[i].id == id
  {
    if t[0].id == id then 0 else
      assert id in Ids(t[1..]) by {
        var j :| 0 <= j < |t| && t[j].id == id;
        assert t[1..][j - 1].id == id;
      }
      1 + IndexOf(t[1..], id)
  }

  /** `keyframes[id] = pos`: a new id is appended, a known id keeps its place
      in the iteration order and takes the new position. */
  function Put(t: Table, id: int, pos: Point): (r: Table)
    requires DistinctIds(t)
    ensures DistinctIds(r)
    ensures Ids(r) == Ids(t) + {id}
    ensures Positions(r) == Positions(t)[id := pos]
    ensures id in Ids(t) ==> |r| == |t| && forall i :: 0 <= i < |t| ==> r[i].id == t[i].id
    ensures id !in Ids(t) ==> r == t + [Keyframe(id, pos)]
  {
    if id in Ids(t) then
      var i := IndexOf(t, id);
      var r := t[i := Keyframe(id, pos)];
      PutPositions(t, i, pos);
      r
    else
      var r := t + [Keyframe(id, pos)];
      assert r[..|r| - 1] == t;
      IdsSnoc(t, Keyframe(id, pos));
      r
  }

  lemma {:induction false} PutPositions(t: Table, i: nat, pos: Point)
    requires DistinctIds(t) && i < |t|
    ensures Ids(t[i := Keyframe(t[i].id, pos)]) == Ids(t)
    ensures Positions(t[i := Keyframe(t[i].id, pos)]) == Positions(t)[t[i].id := pos]
  {
    var r := t[i := Keyframe(t[i].id, pos)];
    SameIds(t, r);
    var m, m' := Positions(r), Positions(t)[t[i].id := pos];
    forall x | x in m.Keys ensures m[x] == m'[x] {
      var j :| 0 <= j < |r| && r[j].id == x;
      PositionsOfItem(r, j);
      PositionsOfItem(t, j);
    }
  }

  /** Items with the same ids, slot by slot, have the same id set. */
  lemma {:induction false} SameIds(t: Table, r: Table)
    requires DistinctIds(t) && |r| == |t| && forall j :: 0 <= j < |t| ==> r[j].id == t[j].id
    ensures DistinctIds(r) && Ids(r) == Ids(t)
  {
  }

  /** Python's `int` and `float` applied to a stripped cell: `None` where
      they raise. */
  datatype Parsers = Parsers(toInt: string -> Option<int>, toFloat: string -> Option<real>)

  /** One CSV row (`id, timestamp, x, y, z, ...`) turned into a keyframe, or
      `None` where `load_keyframes` raises and skips the row: fewer than five
      columns, or an id or coordinate that does not parse. Each cell is
      stripped first. */
  function ParseRow(row: seq<string>, p: Parsers): Option<Keyframe>
  {
    if |row| < 5 then None else
      match (p.toInt(Strip(row[0])), p.toFloat(Strip(row[2])), p.toFloat(Strip(row[3])), p.toFloat(Strip(row[4])))
      case (Some(id), Some(x), Some(y), Some(z)) => Some(Keyframe(id, Point(x, y, z)))
      case _ => None
  }

  /** A row is kept exactly when it has the id and the three coordinates
      `load_keyframes` reads, all parsable; the timestamp and anything after
      `z` are ignored. */
  lemma {:induction false} ParseRowKeeps(row: seq<string>, p: Parsers)
    ensures ParseRow(row, p).Some? <==>
      |row| >= 5 && p.toInt(Strip(row[0])).Some? && p.toFloat(Strip(row[2])).Some?
      && p.toFloat(Strip(row[3])).Some? && p.toFloat(Strip(row[4])).Some?
    ensures ParseRow(row, p).Some? ==> ParseRow(row, p).value == Keyframe(p.toInt(Strip(row[0])).value,
      Point(p.toFloat(Strip(row[2])).value, p.toFloat(Strip(row[3])).value, p.toFloat(Strip(row[4])).value))
    ensures |row| >= 5 ==> forall extra :: ParseRow(row + extra, p) == ParseRow(row, p)
  {
    if |row| >= 5 {
      forall extra ensures ParseRow(row + extra, p) == ParseRow(row, p) {
        var r := row + extra;
        assert r[0] == row[0] && r[2] == row[2] && r[3] == row[3] && r[4] == row[4];
      }
    }
  }

  /** `load_keyframes` after the file is read: every row in order, bad rows
      skipped, later rows overwriting earlier ones with the same id. */
  function Load(rows: seq<seq<string>>, p: Parsers)
    : (t: Table)
    ensures DistinctIds(t)
  {
    if rows == [] then [] else
      var t := Load(rows[..|rows| - 1], p);
      match ParseRow(rows[|rows| - 1], p)
      case None => t
      case Some(kf) => Put(t, kf.id, kf.pos)
  }

  /** A row that does not parse leaves no trace, wherever it sits. */
  lemma {:induction false} LoadSkipsBadRow(pre: seq<seq<string>>, bad: seq<string>, post: seq<seq<string>>,
                                           p: Parsers)
    requires ParseRow(bad, p).None?
    ensures Load(pre + [bad] + post, p) == Load(pre + post, p)
  {
    if post == [] {
      assert pre + [bad] + post == pre + [bad];
      assert (pre + [bad])[..|pre + [bad]| - 1] == pre;
      assert pre + post == pre;
    } else {
      var a, b := pre + [bad] + post, pre + post;
      assert a[..|a| - 1] == pre + [bad] + post[..|post| - 1];
      assert b[..|b| - 1] == pre + post[..|post| - 1];
      assert a[|a| - 1] == b[|b| - 1];
      LoadSkipsBadRow(pre, bad, post[..|post| - 1], p);
    }
  }

  /** Row `j` parses to a keyframe with id `id`. */
  predicate RowGives(rows: seq<seq<string>>, p: Parsers, j: int, id: int) {
    0 <= j < |rows| && ParseRow(rows[j], p).Some? && ParseRow(rows[j], p).value.id == id
  }

  lemma {:induction false} RowGivesPrefix(rows: seq<seq<string>>, p: Parsers, n: nat, j: int, id: int)
    requires RowGives(rows, p, j, id) && j < n <= |rows|
    ensures RowGives(rows[..n], p, j, id)
  {
    assert rows[..n][j] == rows[j];
  }

  /** What loading the last row adds. */
  lemma {:induction false} LoadStep(rows: seq<seq<string>>, p: Parsers)
    requires rows != []
    ensures var last := ParseRow(rows[|rows| - 1], p);
      Ids(Load(rows, p)) == Ids(Load(rows[..|rows| - 1], p)) + (if last.Some? then {last.value.id} else {})
  {
  }

  /** Every loaded id comes from a row that parses to it. */
  lemma {:induction false} LoadIdSource(rows: seq<seq<string>>, p: Parsers, id: int) returns (j: int)
    requires id in Ids(Load(rows, p))
    ensures RowGives(rows, p, j, id)
  {
    var n := |rows| - 1;
    LoadStep(rows, p);
    if id in Ids(Load(rows[..n], p)) {
      j := LoadIdSource(rows[..n], p, id);
      assert rows[..n][j] == rows[j];
    } else {
      j := n;
    }
  }

  /** Every row that parses contributes its id. */
  lemma {:induction false} LoadIdPresent(rows: seq<seq<string>>, p: Parsers, j: int, id: int)
    requires RowGives(rows, p, j, id)
    ensures id in Ids(Load(rows, p))
  {
    var n := |rows| - 1;
    var init := rows[..n];
    LoadStep(rows, p);
    if j < n {
      RowGivesPrefix(rows, p, n, j, id);
      LoadIdPresent(init, p, j, id);
      assert id in Ids(Load(init, p));
    } else {
      assert j == n;
    }
  }

  /** The loaded ids are exactly the ids of the rows that parse. */
  lemma {:induction false} LoadIds(rows: seq<seq<string>>, p: Parsers, id: int)
    ensures id in Ids(Load(rows, p)) <==> exists j :: RowGives(rows, p, j, id)
  {
    if id in Ids(Load(rows, p)) {
      var j := LoadIdSource(rows, p, id);
    }
    if exists j :: RowGives(rows, p, j, id) {
      var j :| RowGives(rows, p, j, id);
      LoadIdPresent(rows, p, j, id);
    }
  }

  /** Each id holds the position of the LAST row that parses to it. */
  lemma {:induction false} LoadLastWins(rows: seq<seq<string>>, p: Parsers, j: int)
    requires 0 <= j < |rows| && ParseRow(rows[j], p).Some?
    requires forall j' :: j < j' < |rows| ==> !RowGives(rows, p, j', ParseRow(rows[j], p).value.id)
    ensures ParseRow(rows[j], p).value.id in Positions(Load(rows, p))
      && Positions(Load(rows, p))[ParseRow(rows[j], p).value.id] == ParseRow(rows[j], p).value.pos
  {
    var init := rows[..|rows| - 1];
    LoadIdPresent(rows, p, j, ParseRow(rows[j], p).value.id);
    if j < |rows| - 1 {
      assert init[j] == rows[j];
      forall j' | j < j' < |init| ensures !RowGives(init, p, j', ParseRow(init[j], p).value.id) {
        assert init[j'] == rows[j'];
        assert !RowGives(rows, p, j', ParseRow(rows[j], p).value.id);
      }
      LoadLastWins(init, p, j);
      assert !RowGives(rows, p, |rows| - 1, ParseRow(rows[j], p).value.id);
    }
  }
}
