/** `DBsession.saveLocation` and one batch of `DBsession.run`: a telemetry
    record (a username and a location with its `must` and `plus` parts)
    becomes the 18 columns of a `location` row, written through
    `update(table='location', id=0, ...)`. */
module Locations {
  import opened Options
  import opened Dicts
  import opened Timestamps
  import opened Slots
  import Text

  /** A JSON object of scalar fields, each already in the text form `%s` gives it. */
  type Fields = map<string, string>

  /** `record['location']`: `None` stands for a missing key. */
  datatype Location = Location(must: Option<Fields>, plus: Option<Fields>)

  /** One telemetry record; `None` stands for a missing key. */
  datatype Record = Record(username: Option<string>, location: Option<Location>)

  /** The `must` fields copied into the row, in the order they are read. */
  const MustKeys: seq<string> := ["lat", "lng", "ns", "ew", "sog", "cog", "alt", "mode"]

  /** The `plus` fields copied into the row, in the order they are read. */
  const PlusKeys: seq<string> := ["kmh", "pdop", "vdop", "hdop", "sats"]

  /** The columns of the dict `saveLocation` hands to `update`, in insertion
      order: the `must` fields (`mode` renamed `calcmode`), the three
      timestamp columns, the `plus` fields, then the identity. */
  const LocationColumns: seq<string> :=
    ["lat", "lng", "ns", "ew", "sog", "cog", "alt", "calcmode", "jst", "ymd", "hms",
     "kmh", "pdop", "vdop", "hdop", "sats", "username", "account"]

  /** Positions in `LocationColumns`: the `must` fields start at 0. */
  const JstAt := 8        // "jst"
  const YmdAt := 9        // "ymd"
  const HmsAt := 10       // "hms"
  const PlusAt := 11      // "kmh", the first `plus` field
  const UsernameAt := 16  // "username"
  const AccountAt := 17   // "account"

  /** What translating a record gives: the column dict, or the reason it was
      dropped. `UnknownUser` and `BadTimestamp` make `saveLocation` return
      False; `MissingKey` is a KeyError that `saveLocation` does not catch. */
  datatype Translation = Columns(kv: Dict) | UnknownUser | BadTimestamp | MissingKey(key: string)

  /** The record carries the four containers `saveLocation` subscripts first. */
  predicate HasParts(rec: Record) {
    && rec.username.Some?
    && rec.location.Some?
    && rec.location.value.must.Some?
    && rec.location.value.plus.Some?
  }

  /** Every field the row is built from is present. */
  predicate HasFields(must: Fields, plus: Fields) {
    && "jst" in must
    && (forall k | k in MustKeys :: k in must)
    && (forall k | k in PlusKeys :: k in plus)
  }

  /** The first of `keys` that `m` lacks, i.e. the subscript that raises
      KeyError when the keys are read in order. */
  function FirstMissing(keys: seq<string>, m: Fields): (r: Option<string>)
    ensures r.None? <==> forall i | 0 <= i < |keys| :: keys[i] in m
    ensures r.Some? ==> r.value !in m && exists i | 0 <= i < |keys| :: keys[i] == r.value && forall j | 0 <= j < i :: keys[j] in m
  {
    if |keys| == 0 then None
    else if keys[0] !in m then Some(keys[0])
    else
      var r := FirstMissing(keys[1..], m);
      if r.Some? then
        var i :| 0 <= i < |keys[1..]| && keys[1..][i] == r.value && forall j | 0 <= j < i :: keys[1..][j] in m;
        assert keys[i + 1] == r.value && forall j | 0 <= j < i + 1 :: keys[j] in m;
        r
      else
        assert forall i | 0 <= i < |keys| :: keys[i] in m by {
          forall i | 0 <= i < |keys|
            ensures keys[i] in m
          {
            if i > 0 {
              assert keys[i] == keys[1..][i - 1];
            }
          }
        }
        r
  }

  lemma LocationColumnsDistinct()
    ensures forall i, j | 0 <= i < j < |LocationColumns| :: LocationColumns[i] != LocationColumns[j]
  {
  }

  /** The values of the `kv` literal of `saveLocation`, one per column of
      `LocationColumns`. */
  function LocationValues(must: Fields, plus: Fields, jst: DateTime, name: string, account: int): (vs: seq<string>)
    requires HasFields(must, plus) && Valid(jst)
    ensures |vs| == |LocationColumns|
  {
    [must["lat"], must["lng"], must["ns"], must["ew"], must["sog"], must["cog"], must["alt"], must["mode"],
     Format(jst), FormatDate(jst), FormatTime(jst),
     plus["kmh"], plus["pdop"], plus["vdop"], plus["hdop"], plus["sats"],
     name, Text.IntToString(account)]
  }

  /** The `kv` literal of `saveLocation`. */
  function LocationKv(must: Fields, plus: Fields, jst: DateTime, name: string, account: int): Dict
    requires HasFields(must, plus) && Valid(jst)
  {
    LocationColumnsDistinct();
    Zip(LocationColumns, LocationValues(must, plus, jst, name, account))
  }

  /** The part of `saveLocation` before `update`: the subscripts and the
      timestamp parse, in the order `saveLocation` performs them. */
  function Translate(account: map<string, int>, rec: Record): (r: Translation)
    ensures r.Columns? <==>
      HasParts(rec) && rec.username.value in account
      && HasFields(rec.location.value.must.value, rec.location.value.plus.value)
      && Parse(rec.location.value.must.value["jst"]).Some?
    ensures r == UnknownUser <==> HasParts(rec) && rec.username.value !in account
    ensures r == BadTimestamp <==>
      && HasParts(rec) && rec.username.value in account
      && "jst" in rec.location.value.must.value
      && Parse(rec.location.value.must.value["jst"]).None?
    ensures r.MissingKey? ==> KeyError(rec, r.key)
    ensures r.Columns? ==>
      var must := rec.location.value.must.value;
      LocationDict(r.kv, must, rec.location.value.plus.value, rec.username.value, account[rec.username.value])
  {
    if rec.username.None? then MissingKey("username")
    else if rec.location.None? then MissingKey("location")
    else if rec.location.value.must.None? then MissingKey("must")
    else if rec.location.value.plus.None? then MissingKey("plus")
    else
      var name := rec.username.value;
      var must := rec.location.value.must.value;
      var plus := rec.location.value.plus.value;
      if name !in account then UnknownUser
      else if "jst" !in must then MissingKey("jst")
      else
        match Parse(must["jst"])
        case None => BadTimestamp
        case Some(jst) =>
          match FirstMissing(MustKeys, must)
          case Some(k) => MissingKey(k)
          case None =>
            match FirstMissing(PlusKeys, plus)
            case Some(k) => MissingKey(k)
            case None =>
              var kv := LocationKv(must, plus, jst, name, account[name]);
              ColumnsOfLocationKv(must, plus, jst, name, account[name]);
              Columns(kv)
  }

  /** `k` is a key whose subscript raises in `saveLocation`: one of the four
      containers, or a field its container lacks. */
  ghost predicate KeyError(rec: Record, k: string) {
    || (k == "username" && rec.username.None?)
    || (k == "location" && rec.username.Some? && rec.location.None?)
    || (k == "must" && rec.location.Some? && rec.location.value.must.None?)
    || (k == "plus" && rec.location.Some? && rec.location.value.plus.None?)
    || (HasParts(rec) && (k == "jst" || k in MustKeys) && k !in rec.location.value.must.value)
    || (HasParts(rec) && k in PlusKeys && k !in rec.location.value.plus.value)
  }

  /** The column dict `saveLocation` builds for a known user: the 18
      columns in order, the copied fields, the timestamp columns and the
      identity columns. */
  ghost predicate LocationDict(kv: Dict, must: Fields, plus: Fields, name: string, account: int) {
    && Names(kv) == LocationColumns
    && CopiedFields(kv, must, plus)
    && TimeColumns(kv, must)
    && kv[UsernameAt].1 == name
    && kv[AccountAt].1 == Text.IntToString(account)
  }

  /** The `must` and `plus` fields are copied verbatim; `mode` is stored
      under the name `calcmode`. */
  ghost predicate CopiedFields(kv: Dict, must: Fields, plus: Fields)
    requires |kv| == |LocationColumns|
  {
    && (forall i | 0 <= i < |MustKeys| :: MustKeys[i] in must && kv[i].1 == must[MustKeys[i]])
    && (forall i | 0 <= i < |PlusKeys| :: PlusKeys[i] in plus && kv[PlusAt + i].1 == plus[PlusKeys[i]])
  }

  /** `jst` is the record's own timestamp text, and it is `ymd` and `hms`
      joined by one space. */
  ghost predicate TimeColumns(kv: Dict, must: Fields)
    requires |kv| == |LocationColumns|
  {
    && "jst" in must && kv[JstAt].1 == must["jst"]
    && kv[JstAt].1 == kv[YmdAt].1 + " " + kv[HmsAt].1
  }

  lemma ColumnsOfLocationKv(must: Fields, plus: Fields, jst: DateTime, name: string, account: int)
    requires HasFields(must, plus) && Valid(jst) && must["jst"] == Format(jst)
    ensures LocationDict(LocationKv(must, plus, jst, name, account), must, plus, name, account)
  {
    NamesOfLocationKv(must, plus, jst, name, account);
    CopiedFieldsOfLocationKv(must, plus, jst, name, account);
    TimeColumnsOfLocationKv(must, plus, jst, name, account);
    var vs := LocationValues(must, plus, jst, name, account);
    assert vs[UsernameAt] == name && vs[AccountAt] == Text.IntToString(account);
  }

  lemma NamesOfLocationKv(must: Fields, plus: Fields, jst: DateTime, name: string, account: int)
    requires HasFields(must, plus) && Valid(jst)
    ensures Names(LocationKv(must, plus, jst, name, account)) == LocationColumns
  {
    var names := Names(LocationKv(must, plus, jst, name, account));
    assert |names| == |LocationColumns|;
    assert forall i | 0 <= i < |names| :: names[i] == LocationColumns[i];
  }

  lemma TimeColumnsOfLocationKv(must: Fields, plus: Fields, jst: DateTime, name: string, account: int)
    requires HasFields(must, plus) && Valid(jst) && must["jst"] == Format(jst)
    ensures TimeColumns(LocationKv(must, plus, jst, name, account), must)
  {
    var vs := LocationValues(must, plus, jst, name, account);
    assert vs[JstAt] == Format(jst) && vs[YmdAt] == FormatDate(jst) && vs[HmsAt] == FormatTime(jst);
  }

  lemma CopiedFieldsOfLocationKv(must: Fields, plus: Fields, jst: DateTime, name: string, account: int)
    requires HasFields(must, plus) && Valid(jst)
    ensures CopiedFields(LocationKv(must, plus, jst, name, account), must, plus)
  {
    var kv := LocationKv(must, plus, jst, name, account);
    forall i | 0 <= i < |MustKeys|
      ensures MustKeys[i] in must && kv[i].1 == must[MustKeys[i]]
    {
      assert MustKeys[i] in MustKeys;
    }
    forall i | 0 <= i < |PlusKeys|
      ensures PlusKeys[i] in plus && kv[PlusAt + i].1 == plus[PlusKeys[i]]
    {
      assert PlusKeys[i] in PlusKeys;
    }
  }

  /** What one `saveLocation` call does to the `location` table. */
  datatype SaveOutcome =
    | Saved(table: Table, id: int)           // `update` ran and returned `id`
    | Dropped(reason: Translation)           // no `update`: a translation failure
    | StoreFailed(error: StoreError)         // `update` raised

  /** Which exceptions the `try` of `saveLocation` catches. `AsWritten` is
      `except (IndexError, ValueError)`, which lets the KeyError of a
      missing field escape; `WithKeyError` adds KeyError, so a missing field
      is logged and the record skipped like an unknown user. */
  datatype Handler = AsWritten | WithKeyError

  /** `saveLocation`'s value: `Some(b)` when it returns `b`, `None` when an
      exception escapes (an uncaught KeyError, or the TypeError of an empty
      table). */
  function Returns(o: SaveOutcome, h: Handler): Option<bool> {
    match o
    case Saved(_, id) => Some(id != 0)
    case Dropped(MissingKey(_)) => if h == WithKeyError then Some(false) else None
    case Dropped(_) => Some(false)
    case StoreFailed(_) => None
  }

  /** The table after the call. */
  function TableAfter(t: Table, o: SaveOutcome): Table {
    if o.Saved? then o.table else t
  }

  /** `DBsession.saveLocation(record)` against the `location` table `t`, the
      account directory `account`, and `saveat` for the clock reading. */
  function SaveLocation(account: map<string, int>, t: Table, rec: Record, saveat: string): (o: SaveOutcome)
    ensures o.Dropped? <==> !Translate(account, rec).Columns?
    ensures o.Dropped? ==> o.reason == Translate(account, rec)
    ensures Translate(account, rec).Columns? ==>
      var kv := Translate(account, rec).kv;
      match Update(t, 0, kv, saveat)
      case Ok(u) => o == Saved(u.table, u.id)
      case Err(e) => o == StoreFailed(e)
    ensures o.Saved? ==>
      && o.id in o.table.rows
      && (forall i | 0 <= i < |LocationColumns| :: LocationColumns[i] in o.table.rows[o.id].cols)
      && "saveat" in o.table.rows[o.id].cols && o.table.rows[o.id].cols["saveat"] == saveat
      && (forall k | k in t.rows && k != o.id :: k in o.table.rows && o.table.rows[k] == t.rows[k])
  {
    match Translate(account, rec)
    case Columns(kv) =>
      (match Update(t, 0, kv, saveat)
       case Ok(u) =>
         SavedRowHoldsColumns(t, kv, saveat);
         Saved(u.table, u.id)
       case Err(e) => StoreFailed(e))
    case reason => Dropped(reason)
  }

  lemma SavedRowHoldsColumns(t: Table, kv: Dict, saveat: string)
    requires Names(kv) == LocationColumns
    requires t.rows != map[]
    ensures var u := Update(t, 0, kv, saveat).value;
      && u.id in u.table.rows
      && (forall i | 0 <= i < |LocationColumns| :: LocationColumns[i] in u.table.rows[u.id].cols)
      && "saveat" in u.table.rows[u.id].cols && u.table.rows[u.id].cols["saveat"] == saveat
  {
    var u := Update(t, 0, kv, saveat).value;
    var cols := u.table.rows[u.id].cols;
    assert WroteRow(t, u);
    forall i | 0 <= i < |LocationColumns|
      ensures LocationColumns[i] in cols
    {
      assert LocationColumns[i] == kv[i].0;
      assert kv[i].0 in KeySet(kv);
    }
    assert "saveat" in KeySet(u.kv);
    assert ToMap(u.kv)["saveat"] == saveat;
    var j :| 0 <= j < |u.kv| && u.kv[j].0 == "saveat";
    assert cols[u.kv[j].0] == u.kv[j].1;
  }

  /** On a table whose ids are all positive, `saveLocation` returns True
      exactly when the record translates and the table is not empty, and
      the table keeps its positive ids. */
  lemma SaveLocationOnPositiveTable(account: map<string, int>, t: Table, rec: Record, saveat: string)
    requires PositiveIds(t)
    ensures var o := SaveLocation(account, t, rec, saveat);
      && (Returns(o, AsWritten) == Some(true) <==> Translate(account, rec).Columns? && t.rows != map[])
      && PositiveIds(TableAfter(t, o))
  {
    var o := SaveLocation(account, t, rec, saveat);
    if Translate(account, rec).Columns? {
      UpdateKeepsPositiveIds(t, 0, Translate(account, rec).kv, saveat);
    }
  }

  /** How one batch ends: the table, how many records were handled, and
      whether an exception stopped the consumer thread. */
  datatype BatchResult = BatchResult(table: Table, handled: nat, stopped: bool)

  /** The body of `run` for one dequeued batch: `saveLocation` on each
      record in order, `clock[i]` the clock reading for `records[i]`. An
      exception escaping `saveLocation` escapes `run` too, so it ends the
      batch and the thread. */
  function RunBatch(h: Handler, account: map<string, int>, t: Table, records: seq<Record>, clock: seq<string>): (b: BatchResult)
    requires |clock| == |records|
    ensures b.handled <= |records|
    ensures b.stopped <==> b.handled < |records|
    ensures b.stopped ==> Returns(SaveLocation(account, b.table, records[b.handled], clock[b.handled]), h).None?
    decreases |records|
  {
    if |records| == 0 then BatchResult(t, 0, false)
    else
      var o := SaveLocation(account, t, records[0], clock[0]);
      if Returns(o, h).None? then BatchResult(t, 0, true)
      else
        var rest := RunBatch(h, account, TableAfter(t, o), records[1..], clock[1..]);
        BatchResult(rest.table, rest.handled + 1, rest.stopped)
  }

  /** The records a batch handled ran in order without an exception, and
      the batch's table is the table after them: replaying just that prefix
      ends in the same table and does not stop. */
  lemma {:induction false} RunBatchPrefix(h: Handler, account: map<string, int>, t: Table, records: seq<Record>, clock: seq<string>)
    requires |clock| == |records|
    ensures var b := RunBatch(h, account, t, records, clock);
      RunBatch(h, account, t, records[..b.handled], clock[..b.handled]) == BatchResult(b.table, b.handled, false)
    decreases |records|
  {
    if |records| > 0 {
      var b := RunBatch(h, account, t, records, clock);
      var o := SaveLocation(account, t, records[0], clock[0]);
      if Returns(o, h).Some? {
        var rest := RunBatch(h, account, TableAfter(t, o), records[1..], clock[1..]);
        RunBatchPrefix(h, account, TableAfter(t, o), records[1..], clock[1..]);
        var pr, pc := records[..b.handled], clock[..b.handled];
        assert pr[0] == records[0] && pc[0] == clock[0];
        assert pr[1..] == records[1..][..rest.handled];
        assert pc[1..] == clock[1..][..rest.handled];
      }
    }
  }

  /** A batch is a left fold of `saveLocation`: one more record runs
      `saveLocation` on the table the batch reached, unless it had already
      stopped, and stops the batch exactly when an exception escapes. */
  lemma {:induction false} RunBatchSnoc(h: Handler, account: map<string, int>, t: Table, records: seq<Record>, clock: seq<string>, r: Record, c: string)
    requires |clock| == |records|
    ensures var b := RunBatch(h, account, t, records, clock);
      var o := SaveLocation(account, b.table, r, c);
      RunBatch(h, account, t, records + [r], clock + [c]) ==
        if b.stopped then b
        else if Returns(o, h).None? then BatchResult(b.table, |records|, true)
        else BatchResult(TableAfter(b.table, o), |records| + 1, false)
    decreases |records|
  {
    if |records| > 0 {
      var o0 := SaveLocation(account, t, records[0], clock[0]);
      assert (records + [r])[0] == records[0] && (clock + [c])[0] == clock[0];
      assert (records + [r])[1..] == records[1..] + [r];
      assert (clock + [c])[1..] == clock[1..] + [c];
      if Returns(o0, h).Some? {
        RunBatchSnoc(h, account, TableAfter(t, o0), records[1..], clock[1..], r, c);
      }
    } else {
      assert records + [r] == [r] && clock + [c] == [c];
      assert [r][1..] == [] && [c][1..] == [];
    }
  }

  /** As written, a record without a `username` key stops the batch before
      anything is saved: every record after it is lost, and so is the
      consumer thread. */
  lemma MissingKeyStopsBatch(account: map<string, int>, t: Table, records: seq<Record>, clock: seq<string>)
    requires |clock| == |records| && |records| > 0
    requires records[0].username.None?
    ensures RunBatch(AsWritten, account, t, records, clock) == BatchResult(t, 0, true)
  {
    assert Translate(account, records[0]) == MissingKey("username");
  }

  /** With KeyError caught, a batch on a non-empty table handles every
      record: the only exception left, the empty-table TypeError, cannot
      arise because `update` never removes a row. */
  lemma {:induction false} CaughtBatchHandlesAll(account: map<string, int>, t: Table, records: seq<Record>, clock: seq<string>)
    requires |clock| == |records|
    requires t.rows != map[]
    ensures RunBatch(WithKeyError, account, t, records, clock).handled == |records|
    ensures !RunBatch(WithKeyError, account, t, records, clock).stopped
    decreases |records|
  {
    if |records| > 0 {
      var o := SaveLocation(account, t, records[0], clock[0]);
      assert !o.StoreFailed?;
      var t1 := TableAfter(t, o);
      assert t1.rows != map[] by {
        assert t.rows.Keys != {};
        HasMember(t.rows.Keys);
        var k :| k in t.rows.Keys;
        assert k in t1.rows;
      }
      CaughtBatchHandlesAll(account, t1, records[1..], clock[1..]);
    }
  }

  /** A batch whose records all name unknown users or carry a bad
      timestamp is handled to the end and leaves the table as it was. */
  lemma {:induction false} RejectedBatchKeepsTable(h: Handler, account: map<string, int>, t: Table, records: seq<Record>, clock: seq<string>)
    requires |clock| == |records|
    requires forall i | 0 <= i < |records| :: Translate(account, records[i]) in {UnknownUser, BadTimestamp}
    ensures RunBatch(h, account, t, records, clock) == BatchResult(t, |records|, false)
    decreases |records|
  {
    if |records| > 0 {
      assert Translate(account, records[0]) in {UnknownUser, BadTimestamp};
      RejectedBatchKeepsTable(h, account, t, records[1..], clock[1..]);
    }
  }

  /** Every table a batch passes through keeps its ids positive. */
  lemma {:induction false} BatchKeepsPositiveIds(h: Handler, account: map<string, int>, t: Table, records: seq<Record>, clock: seq<string>)
    requires |clock| == |records|
    requires PositiveIds(t)
    ensures PositiveIds(RunBatch(h, account, t, records, clock).table)
    decreases |records|
  {
    if |records| > 0 {
      var o := SaveLocation(account, t, records[0], clock[0]);
      SaveLocationOnPositiveTable(account, t, records[0], clock[0]);
      if Returns(o, h).Some? {
        BatchKeepsPositiveIds(h, account, TableAfter(t, o), records[1..], clock[1..]);
        assert RunBatch(h, account, t, records, clock).table
          == RunBatch(h, account, TableAfter(t, o), records[1..], clock[1..]).table;
      }
    }
  }
}
