/** The slot table and `DBsession.update`: choose a row (reuse the free
    row with the largest id, or append a row at `max(id) + 1`), then write
    every column of the caller's dict plus `saveat` onto it. The whole
    call is one atomic step, as the exclusive table lock makes it in the
    store. */
module Slots {
  import opened Options
  import opened Dicts
  import Text

  /** The `vf` column as SQL sees it: NULL or a boolean. Only `Set(false)`
      satisfies the predicate `vf=false`. */
  datatype Flag = Null | Set(b: bool)

  /** A row: its occupancy flag and the columns that hold a value. */
  datatype Row = Row(vf: Flag, cols: map<string, string>)

  /** A slot table keyed by `id`. `vfDefault` is the column default the
      store gives `vf` when a row is inserted with only its id. */
  datatype Table = Table(rows: map<int, Row>, vfDefault: Flag)

  /** `select ... where id>0 and vf=false`: the rows eligible for reuse. */
  function FreeIds(t: Table): set<int> {
    set id | id in t.rows && id > 0 && t.rows[id].vf == Set(false)
  }

  /** A witness for `var x :| x in s`. Dafny does not derive one from
      `s != {}` alone, since that needs set extensionality; assuming no
      member makes `s` equal to `{}`, which the `assert false` closes. */
  lemma HasMember(s: set<int>)
    requires s != {}
    ensures exists x :: x in s
  {
    assert !(forall x :: x !in s) by {
      if forall x :: x !in s {
        assert false;
      }
    }
  }

  lemma {:induction false} MaxExists(s: set<int>)
    requires s != {}
    ensures exists m :: m in s && forall x | x in s :: x <= m
  {
    HasMember(s);
    var x :| x in s;
    if s == {x} {
      assert forall y | y in s :: y <= x;
    } else {
      var rest := s - {x};
      assert rest != {};
      MaxExists(rest);
      var m :| m in rest && forall y | y in rest :: y <= m;
      var top := if m < x then x else m;
      forall y | y in s
        ensures y <= top
      {
        if y != x {
          assert y in rest;
        }
      }
      assert top in s;
    }
  }

  /** SQL `max(...)` over a non-empty set. */
  function Max(s: set<int>): (m: int)
    requires s != {}
    ensures m in s && forall x | x in s :: x <= m
  {
    MaxExists(s);
    var m :| m in s && forall x | x in s :: x <= m;
    m
  }

  /** Raised by `int(None)` when `max(id)` of an empty table is NULL. */
  datatype StoreError = NullMaxId

  datatype Allocation = Allocation(table: Table, id: int)

  /** The slot choice of `update` (the `id == 0` branch). */
  function Allocate(t: Table, id: int): (r: Result<Allocation, StoreError>)
    ensures id != 0 ==> r.Ok? && r.value.id == id && r.value.table == t
    ensures id == 0 && FreeIds(t) != {} ==>
      && r.Ok?
      && r.value.id in FreeIds(t)
      && (forall f | f in FreeIds(t) :: f <= r.value.id)
      && r.value.table == t.(rows := t.rows[r.value.id := t.rows[r.value.id].(vf := Set(true))])
    ensures id == 0 && FreeIds(t) == {} && t.rows != map[] ==>
      && r.Ok?
      && r.value.id !in t.rows
      && r.value.id - 1 in t.rows
      && (forall k | k in t.rows :: k < r.value.id)
      && r.value.table == t.(rows := t.rows[r.value.id := Row(t.vfDefault, map[])])
    ensures id == 0 && t.rows == map[] ==> r == Err(NullMaxId)
  {
    if id != 0 then Ok(Allocation(t, id))
    else
      var free := FreeIds(t);
      if free != {} then
        var m := Max(free);
        Ok(Allocation(t.(rows := t.rows[m := t.rows[m].(vf := Set(true))]), m))
      else if t.rows == map[] then
        assert t.rows.Keys == {};
        Err(NullMaxId)
      else
        assert t.rows.Keys != {};
        var n := Max(t.rows.Keys) + 1;
        Ok(Allocation(t.(rows := t.rows[n := Row(t.vfDefault, map[])]), n))
  }

  /** `update <table> set <clause> where id=<id>`: the named row takes every
      entry of `kv`; a missing row means nothing is touched. */
  function Write(t: Table, id: int, kv: Dict): (r: Table)
    ensures r.rows.Keys == t.rows.Keys && r.vfDefault == t.vfDefault
    ensures forall k | k in t.rows && k != id :: r.rows[k] == t.rows[k]
    ensures id in t.rows ==>
      && r.rows[id].vf == t.rows[id].vf
      && r.rows[id].cols.Keys == t.rows[id].cols.Keys + KeySet(kv)
      && (forall i | 0 <= i < |kv| :: r.rows[id].cols[kv[i].0] == kv[i].1)
      && (forall c | c in t.rows[id].cols && c !in KeySet(kv) :: r.rows[id].cols[c] == t.rows[id].cols[c])
    ensures id !in t.rows ==> r == t
  {
    if id in t.rows then
      t.(rows := t.rows[id := t.rows[id].(cols := t.rows[id].cols + ToMap(kv))])
    else t
  }

  /** One `k='v'` assignment of the SET clause; the value is not escaped. */
  function Fragment(e: Entry): string {
    e.0 + "='" + e.1 + "'"
  }

  function Fragments(kv: Dict): (r: seq<string>)
    ensures |r| == |kv| && forall i | 0 <= i < |kv| :: r[i] == Fragment(kv[i])
  {
    seq(|kv|, i requires 0 <= i < |kv| => Fragment(kv[i]))
  }

  predicate CommaFree(kv: Dict) {
    forall i | 0 <= i < |kv| :: ',' !in kv[i].0 && ',' !in kv[i].1
  }

  /** `','.join(setter)`: one fragment per entry in dict order. When no key or
      value contains a comma, splitting the clause on commas recovers exactly
      the fragments. */
  function SetClause(kv: Dict): (c: string)
    ensures |kv| > 0 && CommaFree(kv) ==> Text.Split(c, ',') == Fragments(kv)
  {
    var parts := Fragments(kv);
    var c := Text.Join(parts, ',');
    if |kv| > 0 && CommaFree(kv) then
      Text.SplitJoin(parts, ',');
      c
    else c
  }

  /** What `update` leaves behind: the table, the id it returns, and the
      caller's dict after `kv['saveat'] = saveat`. */
  datatype Updated = Updated(table: Table, id: int, kv: Dict)

  /** `DBsession.update(table, id, kv)` with `saveat` standing for the clock
      reading it stamps. */
  function Update(t: Table, id: int, kv: Dict, saveat: string): (r: Result<Updated, StoreError>)
    ensures r.Err? <==> id == 0 && t.rows == map[]
    ensures r.Ok? ==> ToMap(r.value.kv) == ToMap(kv)["saveat" := saveat]
    ensures r.Ok? && "saveat" !in KeySet(kv) ==> r.value.kv == kv + [("saveat", saveat)]
    ensures r.Ok? && "saveat" in KeySet(kv) ==> Names(r.value.kv) == Names(kv)
    ensures r.Ok? ==> r.value.table.vfDefault == t.vfDefault
    ensures r.Ok? && id != 0 ==> r.value.id == id && r.value.table == Write(t, id, r.value.kv)
    ensures r.Ok? && id != 0 ==> r.value.table.rows.Keys == t.rows.Keys
    ensures r.Ok? && id != 0 && id in t.rows ==> r.value.table.rows[id].vf == t.rows[id].vf
    ensures r.Ok? && id == 0 ==>
      && r.value.id in r.value.table.rows
      && r.value.table.rows[r.value.id].vf == (if r.value.id in t.rows then Set(true) else t.vfDefault)
    ensures r.Ok? && id == 0 && FreeIds(t) != {} ==>
      r.value.id in FreeIds(t) && forall f | f in FreeIds(t) :: f <= r.value.id
    ensures r.Ok? && id == 0 && FreeIds(t) == {} ==>
      r.value.id !in t.rows && r.value.id - 1 in t.rows && forall k | k in t.rows :: k < r.value.id
    ensures r.Ok? ==> t.rows.Keys <= r.value.table.rows.Keys <= t.rows.Keys + {r.value.id}
    ensures r.Ok? ==> forall k | k in t.rows && k != r.value.id :: k in r.value.table.rows && r.value.table.rows[k] == t.rows[k]
    ensures r.Ok? && r.value.id in r.value.table.rows ==> WroteRow(t, r.value)
  {
    match Allocate(t, id)
    case Err(e) => Err(e)
    case Ok(a) =>
      var stamped := Put(kv, "saveat", saveat);
      var u := Updated(Write(a.table, a.id, stamped), a.id, stamped);
      AllocatedThenWritten(t, id, a, stamped);
      Ok(u)
  }

  /** The row `u.id` of `u.table` holds every column of `u.kv`, and every
      other column it had in `t` (none, if the row is new) is untouched. */
  ghost predicate WroteRow(t: Table, u: Updated)
    requires u.id in u.table.rows
  {
    var cols := u.table.rows[u.id].cols;
    var before := if u.id in t.rows then t.rows[u.id].cols else map[];
    && cols.Keys == before.Keys + KeySet(u.kv)
    && (forall i | 0 <= i < |u.kv| :: cols[u.kv[i].0] == u.kv[i].1)
    && (forall c | c in before && c !in KeySet(u.kv) :: cols[c] == before[c])
  }

  lemma AllocatedThenWritten(t: Table, id: int, a: Allocation, kv: Dict)
    requires Allocate(t, id) == Ok(a)
    ensures id != 0 ==> a.id == id && a.table == t && Write(a.table, a.id, kv).rows.Keys == t.rows.Keys
    ensures Write(a.table, a.id, kv).vfDefault == t.vfDefault
    ensures id == 0 ==>
      && a.id in Write(a.table, a.id, kv).rows
      && Write(a.table, a.id, kv).rows[a.id].vf == (if a.id in t.rows then Set(true) else t.vfDefault)
    ensures t.rows.Keys <= Write(a.table, a.id, kv).rows.Keys <= t.rows.Keys + {a.id}
    ensures forall k | k in t.rows && k != a.id :: k in Write(a.table, a.id, kv).rows && Write(a.table, a.id, kv).rows[k] == t.rows[k]
    ensures a.id in Write(a.table, a.id, kv).rows ==> WroteRow(t, Updated(Write(a.table, a.id, kv), a.id, kv))
  {
    if a.id in a.table.rows {
      assert a.table.rows[a.id].cols == (if a.id in t.rows then t.rows[a.id].cols else map[]);
    }
  }

  /** The table's own invariant: every row id is positive. */
  predicate PositiveIds(t: Table) {
    forall k | k in t.rows :: k > 0
  }

  /** `update` keeps the ids positive, and with `id == 0` it returns a
      positive id (so a caller testing the result for truth sees success). */
  lemma UpdateKeepsPositiveIds(t: Table, id: int, kv: Dict, saveat: string)
    requires PositiveIds(t)
    ensures Update(t, id, kv, saveat).Ok? ==>
      var u := Update(t, id, kv, saveat).value;
      PositiveIds(u.table) && (id == 0 ==> u.id > 0)
  {
    var r := Update(t, id, kv, saveat);
    if r.Ok? {
      if id == 0 {
        FreshIdPositive(t, kv, saveat);
        PositiveIdAddsPositiveRow(t, kv, saveat);
      } else {
        assert r.value.table.rows.Keys == t.rows.Keys;
      }
    }
  }

  lemma FreshIdPositive(t: Table, kv: Dict, saveat: string)
    requires PositiveIds(t) && t.rows != map[]
    ensures Update(t, 0, kv, saveat).value.id > 0
  {
    var u := Update(t, 0, kv, saveat).value;
    if FreeIds(t) != {} {
      assert u.id in FreeIds(t);
    } else {
      assert u.id - 1 in t.rows;
    }
  }

  lemma PositiveIdAddsPositiveRow(t: Table, kv: Dict, saveat: string)
    requires PositiveIds(t) && t.rows != map[]
    requires Update(t, 0, kv, saveat).value.id > 0
    ensures PositiveIds(Update(t, 0, kv, saveat).value.table)
  {
    var u := Update(t, 0, kv, saveat).value;
    forall k | k in u.table.rows
      ensures k > 0
    {
      assert k in t.rows.Keys + {u.id};
    }
  }

  /** An explicit id that names no row: `update` returns it and changes nothing. */
  lemma UpdateOfMissingRow(t: Table, id: int, kv: Dict, saveat: string)
    requires id != 0 && id !in t.rows
    ensures Update(t, id, kv, saveat).Ok?
    ensures Update(t, id, kv, saveat).value.id == id
    ensures Update(t, id, kv, saveat).value.table == t
  {
  }

  /** Two `id == 0` calls in a row never return the same id, provided the
      store's default for `vf` is not `false`. */
  lemma SuccessiveAllocationsDiffer(t: Table, kv1: Dict, s1: string, kv2: Dict, s2: string)
    requires t.vfDefault != Set(false)
    requires t.rows != map[]
    ensures var u1 := Update(t, 0, kv1, s1).value;
      Update(u1.table, 0, kv2, s2).Ok? && Update(u1.table, 0, kv2, s2).value.id != u1.id
  {
    var u1 := Update(t, 0, kv1, s1).value;
    var t1 := u1.table;
    assert u1.id in t1.rows && t1.rows[u1.id].vf != Set(false);
    assert u1.id !in FreeIds(t1);
    var u2 := Update(t1, 0, kv2, s2).value;
    assert u2.id in FreeIds(t1) || u2.id !in t1.rows;
  }

  /** With a `vf` default of `false`, on a table with positive ids and no
      free row, the row the first id-0 call inserts is still free, and the
      next id-0 call writes over it. */
  lemma InsertedRowIsReusedWhenDefaultFalse(t: Table, kv1: Dict, s1: string, kv2: Dict, s2: string)
    requires t.vfDefault == Set(false)
    requires t.rows != map[] && FreeIds(t) == {} && PositiveIds(t)
    ensures var u1 := Update(t, 0, kv1, s1).value;
      Update(u1.table, 0, kv2, s2).Ok? && Update(u1.table, 0, kv2, s2).value.id == u1.id
  {
    var u1 := Update(t, 0, kv1, s1).value;
    InsertedRowIsFree(t, kv1, s1);
    var u2 := Update(u1.table, 0, kv2, s2);
    assert u2.value.id in FreeIds(u1.table);
  }

  lemma InsertedRowIsFree(t: Table, kv: Dict, saveat: string)
    requires t.vfDefault == Set(false)
    requires t.rows != map[] && FreeIds(t) == {} && PositiveIds(t)
    ensures var u := Update(t, 0, kv, saveat).value;
      u.id in u.table.rows && FreeIds(u.table) == {u.id}
  {
    var u := Update(t, 0, kv, saveat).value;
    FreshIdPositive(t, kv, saveat);
    assert u.id !in t.rows;
    assert u.table.rows[u.id].vf == Set(false);
    assert u.table.rows.Keys <= t.rows.Keys + {u.id};
    OnlyNewRowFree(t, u.table, u.id);
  }

  /** A table that gains one free row `n` over a table with none, and keeps
      every other row, has exactly `n` free. */
  lemma OnlyNewRowFree(t: Table, t2: Table, n: int)
    requires FreeIds(t) == {} && n > 0
    requires n in t2.rows && t2.rows[n].vf == Set(false)
    requires t2.rows.Keys <= t.rows.Keys + {n}
    requires forall k | k in t.rows && k != n :: k in t2.rows && t2.rows[k] == t.rows[k]
    ensures FreeIds(t2) == {n}
  {
    forall k | k in FreeIds(t2)
      ensures k == n
    {
      assert k != n ==> k in t.rows && k in FreeIds(t);
    }
  }

  /** Without the positive-id invariant, a table whose largest id is `-1`
      makes the insert path return `0`, a false value, although it wrote a row. */
  lemma InsertAfterMinusOneReturnsZero(t: Table, kv: Dict, saveat: string)
    requires -1 in t.rows && forall k | k in t.rows :: k <= -1
    ensures Update(t, 0, kv, saveat).Ok?
    ensures Update(t, 0, kv, saveat).value.id == 0
    ensures 0 in Update(t, 0, kv, saveat).value.table.rows
  {
    assert FreeIds(t) == {};
  }

  /** Values go into the clause unescaped: a value holding a quote and a
      comma reads as a second assignment, so two different dicts give the
      same clause text. */
  lemma UnescapedValueReadsAsTwoColumns()
    ensures var one: Dict := [("ns", "N',ew='E")];
      var two: Dict := [("ns", "N"), ("ew", "E")];
      one != two && SetClause(one) == SetClause(two)
  {
    ForgedClause();
    PlainClause();
  }

  lemma ForgedClause()
    ensures SetClause([("ns", "N',ew='E")]) == "ns='N',ew='E'"
  {
    var one: Dict := [("ns", "N',ew='E")];
    assert Fragment(one[0]) == "ns='N',ew='E'";
    assert Fragments(one) == ["ns='N',ew='E'"];
  }

  lemma PlainClause()
    ensures SetClause([("ns", "N"), ("ew", "E")]) == "ns='N',ew='E'"
  {
    var two: Dict := [("ns", "N"), ("ew", "E")];
    var text := "ns='N',ew='E'";
    var f0, f1 := Fragment(two[0]), Fragment(two[1]);
    assert f0 == "ns='N'";
    assert f1 == "ew='E'";
    assert Fragments(two) == [f0, f1];
    assert Text.Join([f0, f1], ',') == f0 + [','] + f1;
    var joined := f0 + [','] + f1;
    assert |joined| == |text|;
    assert forall i | 0 <= i < |text| :: joined[i] == text[i];
  }
}
