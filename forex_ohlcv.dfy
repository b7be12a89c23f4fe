/** The SQLite table forex_ohlcv that the collector writes into.

    Only the part of the table the collector relies on is modelled: the
    constraint UNIQUE(pair, date) becomes the key of a map, the NOT NULL
    constraints on pair, date, open, high, low and close decide whether a
    statement is accepted, and INSERT OR REPLACE overwrites the row that
    holds the same key. */
module ForexOhlcv {
  import opened Nullable

  /** The UNIQUE(pair, date) key of a row. */
  type Key = (string, string)

  /** The value columns of a stored row (volume is the one nullable column). */
  datatype Row = Row(open: real, high: real, low: real, close: real, volume: Option<int>)

  type Table = map<Key, Row>

  /** One row write, as the table sees it: the key it lands on and the row it leaves there. */
  type Write = (Key, Row)

  /** The seven values bound to INSERT OR REPLACE INTO forex_ohlcv
      (pair, date, open, high, low, close, volume); None binds NULL. */
  datatype InsertParams = InsertParams(
    pair: Option<string>,
    date: Option<string>,
    open: Option<real>,
    high: Option<real>,
    low: Option<real>,
    close: Option<real>,
    volume: Option<int>)

  /** The NOT NULL constraints of the table hold for these values. */
  predicate NotNullHolds(p: InsertParams) {
    p.pair.Some? && p.date.Some? && p.open.Some? && p.high.Some? && p.low.Some? && p.close.Some?
  }

  /** The row write one INSERT OR REPLACE performs, or None when it raises
      IntegrityError. Under OR REPLACE a NOT NULL violation would be repaired
      with the column's default, but none of the NOT NULL columns has one, so
      the statement aborts and changes nothing. */
  function StatementWrite(p: InsertParams): Option<Write> {
    if NotNullHolds(p) then
      Some(((p.pair.value, p.date.value), Row(p.open.value, p.high.value, p.low.value, p.close.value, p.volume)))
    else
      None
  }

  /** INSERT OR REPLACE as a function of the table: None stands for IntegrityError. */
  function Upsert(t: Table, p: InsertParams): (r: Option<Table>)
    ensures r.None? <==> !NotNullHolds(p)
    ensures r.Some? ==>
      var key := (p.pair.value, p.date.value);
      && r.value.Keys == t.Keys + {key}
      && r.value[key] == Row(p.open.value, p.high.value, p.low.value, p.close.value, p.volume)
      && forall k :: k in t && k != key ==> r.value[k] == t[k]
  {
    match StatementWrite(p)
    case None => None
    case Some(w) => Some(t[w.0 := w.1])
  }

  /** The table after a sequence of row writes, applied in order. */
  function ApplyWrites(t: Table, ws: seq<Write>): Table
  {
    if ws == [] then t
    else
      var w := ws[|ws| - 1];
      ApplyWrites(t, ws[..|ws| - 1])[w.0 := w.1]
  }

  /** One more write updates the table at its key. */
  lemma ApplyWritesSnoc(t: Table, ws: seq<Write>, w: Write)
    ensures ApplyWrites(t, ws + [w]) == ApplyWrites(t, ws)[w.0 := w.1]
  {
    assert (ws + [w])[..|ws|] == ws;
  }

  /** The row left by the last write to key k, if any write touches k. */
  function LastWrite(ws: seq<Write>, k: Key): Option<Row>
  {
    if ws == [] then None
    else if ws[|ws| - 1].0 == k then Some(ws[|ws| - 1].1)
    else LastWrite(ws[..|ws| - 1], k)
  }

  /** The keys a sequence of writes touches. */
  function WrittenKeys(ws: seq<Write>): set<Key> {
    set w | w in ws :: w.0
  }

  /** LastWrite is the write with the highest index among those to k. */
  lemma {:induction false} LastWriteIsLatest(ws: seq<Write>, k: Key, i: nat)
    requires i < |ws| && ws[i].0 == k
    requires forall j :: i < j < |ws| ==> ws[j].0 != k
    ensures LastWrite(ws, k) == Some(ws[i].1)
  {
    if i < |ws| - 1 {
      LastWriteIsLatest(ws[..|ws| - 1], k, i);
    }
  }

  /** There is no last write to k exactly when no write touches k. */
  lemma {:induction false} LastWriteAbsent(ws: seq<Write>, k: Key)
    ensures LastWrite(ws, k).None? <==> k !in WrittenKeys(ws)
  {
    if ws != [] {
      var init := ws[..|ws| - 1];
      LastWriteAbsent(init, k);
      assert ws == init + [ws[|ws| - 1]];
      assert WrittenKeys(ws) == WrittenKeys(init) + {ws[|ws| - 1].0};
    }
  }

  /** Last writer wins: after the writes, key k holds the row of the last
      write to k; a key no write touches keeps what the table had (or stays absent). */
  lemma {:induction false} ApplyWritesAt(t: Table, ws: seq<Write>, k: Key)
    ensures k in ApplyWrites(t, ws) <==> LastWrite(ws, k).Some? || k in t
    ensures k in ApplyWrites(t, ws) ==>
      ApplyWrites(t, ws)[k] == if LastWrite(ws, k).Some? then LastWrite(ws, k).value else t[k]
  {
    if ws != [] {
      ApplyWritesAt(t, ws[..|ws| - 1], k);
    }
  }

  /** The writes add exactly the keys they touch. */
  lemma {:induction false} ApplyWritesKeys(t: Table, ws: seq<Write>)
    ensures ApplyWrites(t, ws).Keys == t.Keys + WrittenKeys(ws)
  {
    forall k ensures k in ApplyWrites(t, ws) <==> k in t.Keys + WrittenKeys(ws) {
      ApplyWritesAt(t, ws, k);
      LastWriteAbsent(ws, k);
    }
  }

  /** Applying the same writes a second time changes nothing. */
  lemma ApplyWritesIdempotent(t: Table, ws: seq<Write>)
    ensures ApplyWrites(ApplyWrites(t, ws), ws) == ApplyWrites(t, ws)
  {
    var once := ApplyWrites(t, ws);
    var twice := ApplyWrites(once, ws);
    forall k ensures (k in twice <==> k in once) && (k in once ==> twice[k] == once[k]) {
      ApplyWritesAt(t, ws, k);
      ApplyWritesAt(once, ws, k);
    }
  }

  /** Writes into an empty table leave at most one row per write: replacing
      writes are counted but add no row. */
  lemma {:induction false} RowsAtMostWrites(ws: seq<Write>)
    ensures |ApplyWrites(map[], ws)| <= |ws|
  {
    if ws != [] {
      var w := ws[|ws| - 1];
      var before := ApplyWrites(map[], ws[..|ws| - 1]);
      RowsAtMostWrites(ws[..|ws| - 1]);
      assert before[w.0 := w.1].Keys == before.Keys + {w.0};
    }
  }

  /** The table as a database object that statements update in place. */
  class OhlcvTable {
    var rows: Table

    /** CREATE TABLE on a database that has no forex_ohlcv yet. */
    constructor ()
      ensures rows == map[]
    {
      rows := map[];
    }

    /** CREATE TABLE IF NOT EXISTS on a database that already holds these rows. */
    constructor Existing(stored: Table)
      ensures rows == stored
    {
      rows := stored;
    }

    /** cursor.execute of the INSERT OR REPLACE statement; ok is false when it
        raises IntegrityError, and then the table is unchanged. */
    method InsertOrReplace(p: InsertParams) returns (ok: bool)
      modifies this
      ensures ok <==> NotNullHolds(p)
      ensures rows == if ok then Upsert(old(rows), p).value else old(rows)
    {
      var r := Upsert(rows, p);
      ok := r.Some?;
      if ok {
        rows := r.value;
      }
    }
  }

  // ---------------------------------------------------------------------------
  // The verification query: the number of rows of each pair, grouped by
  // pair and listed in ascending pair order.

  /** TEXT comparison under SQLite's default BINARY collation: byte-wise on
      the UTF-8 encoding, a proper prefix first. Comparing code points gives
      the same order as comparing their UTF-8 bytes. */
  predicate TextLe(a: string, b: string)
    decreases |a|
  {
    |a| == 0 || (|b| > 0 && (a[0] < b[0] || (a[0] == b[0] && TextLe(a[1..], b[1..]))))
  }

  lemma {:induction false} TextLeReflexive(a: string)
    ensures TextLe(a, a)
    decreases |a|
  {
    if |a| > 0 {
      TextLeReflexive(a[1..]);
    }
  }

  lemma {:induction false} TextLeTotal(a: string, b: string)
    ensures TextLe(a, b) || TextLe(b, a)
    decreases |a|
  {
    if |a| > 0 && |b| > 0 && a[0] == b[0] {
      TextLeTotal(a[1..], b[1..]);
    }
  }

  lemma {:induction false} TextLeAntisymmetric(a: string, b: string)
    requires TextLe(a, b) && TextLe(b, a)
    ensures a == b
    decreases |a|
  {
    if |a| > 0 {
      TextLeAntisymmetric(a[1..], b[1..]);
      assert a == [a[0]] + a[1..] && b == [b[0]] + b[1..];
    }
  }

  lemma {:induction false} TextLeTransitive(a: string, b: string, c: string)
    requires TextLe(a, b) && TextLe(b, c)
    ensures TextLe(a, c)
    decreases |a|
  {
    if |a| > 0 && a[0] == b[0] && b[0] == c[0] {
      TextLeTransitive(a[1..], b[1..], c[1..]);
    }
  }

  /** Every non-empty finite set of strings has a least element. */
  lemma {:induction false} LeastTextExists(s: set<string>)
    requires s != {}
    ensures exists m :: m in s && forall x :: x in s ==> TextLe(m, x)
    decreases |s|
  {
    var y :| y in s;
    TextLeReflexive(y);
    if s == {y} {
      assert forall x :: x in s ==> TextLe(y, x);
    } else {
      LeastTextExists(s - {y});
      var m :| m in s - {y} && forall x :: x in s - {y} ==> TextLe(m, x);
      TextLeTotal(m, y);
      if TextLe(m, y) {
        assert forall x :: x in s ==> TextLe(m, x);
      } else {
        forall x | x in s - {y} ensures TextLe(y, x) {
          TextLeTransitive(y, m, x);
        }
        assert forall x :: x in s ==> TextLe(y, x);
      }
    }
  }

  /** The elements of s in ascending BINARY order, without repetition. */
  ghost function SortedText(s: set<string>): (r: seq<string>)
    ensures |r| == |s|
    ensures forall x :: x in r <==> x in s
    ensures forall i, j :: 0 <= i < j < |r| ==> TextLe(r[i], r[j]) && r[i] != r[j]
    decreases |s|
  {
    if s == {} then []
    else
      LeastTextExists(s);
      var m :| m in s && forall x :: x in s ==> TextLe(m, x);
      [m] + SortedText(s - {m})
  }

  /** The pairs that have at least one stored row. */
  function Pairs(t: Table): set<string> {
    set k | k in t :: k.0
  }

  /** The dates stored for one pair. */
  function StoredDates(t: Table, pair: string): set<string> {
    set k | k in t && k.0 == pair :: k.1
  }

  /** Keys that share their pair are as many as their dates. */
  lemma {:induction false} KeysAsManyAsDates(ks: set<Key>, pair: string)
    requires forall k :: k in ks ==> k.0 == pair
    ensures |ks| == |set k | k in ks :: k.1|
    decreases |ks|
  {
    if ks != {} {
      var k :| k in ks;
      var rest := ks - {k};
      KeysAsManyAsDates(rest, pair);
      assert (set x | x in ks :: x.1) == (set x | x in rest :: x.1) + {k.1};
      assert k.1 !in (set x | x in rest :: x.1);
    }
  }

  /** COUNT(*) of the rows of one pair: the number of distinct dates stored
      for it, and non-zero exactly for the pairs the table holds. */
  function PairCount(t: Table, pair: string): (c: nat)
    ensures c == |StoredDates(t, pair)|
    ensures c > 0 <==> pair in Pairs(t)
  {
    var ks := set k | k in t && k.0 == pair;
    KeysAsManyAsDates(ks, pair);
    assert (set k | k in ks :: k.1) == StoredDates(t, pair);
    assert pair in Pairs(t) <==> ks != {} by {
      if pair in Pairs(t) {
        var k :| k in t && k.0 == pair;
        assert k in ks;
      }
    }
    |ks|
  }

  /** One (pair, count) line per stored pair name, in the given order. */
  function CountLines(t: Table, ps: seq<string>): (r: seq<(string, nat)>)
    requires forall i :: 0 <= i < |ps| ==> ps[i] in Pairs(t)
    ensures |r| == |ps|
    ensures forall i :: 0 <= i < |r| ==> r[i].0 == ps[i] && r[i].1 == |StoredDates(t, ps[i])| && r[i].1 > 0
  {
    if ps == [] then [] else [(ps[0], PairCount(t, ps[0]))] + CountLines(t, ps[1..])
  }

  /** The names on the lines are exactly the names listed. */
  lemma CountLinesNames(t: Table, ps: seq<string>, s: set<string>)
    requires forall x :: x in ps <==> x in s
    requires forall i :: 0 <= i < |ps| ==> ps[i] in Pairs(t)
    ensures (set i | 0 <= i < |CountLines(t, ps)| :: CountLines(t, ps)[i].0) == s
  {
    var r := CountLines(t, ps);
    forall x | x in s ensures x in (set i | 0 <= i < |r| :: r[i].0) {
      var i :| 0 <= i < |ps| && ps[i] == x;
      assert r[i].0 == x;
    }
  }

  /** The (pair, count) lines the verification query returns: each pair
      once, in ascending pair order, with its number of distinct dates. */
  ghost function PairReport(t: Table): (r: seq<(string, nat)>)
    ensures (set i | 0 <= i < |r| :: r[i].0) == Pairs(t)
    ensures forall i, j :: 0 <= i < j < |r| ==> TextLe(r[i].0, r[j].0) && r[i].0 != r[j].0
    ensures forall i :: 0 <= i < |r| ==> r[i].1 == |StoredDates(t, r[i].0)| && r[i].1 > 0
  {
    var ps := SortedText(Pairs(t));
    assert forall i :: 0 <= i < |ps| ==> ps[i] in Pairs(t) by {
      forall i | 0 <= i < |ps| ensures ps[i] in Pairs(t) {
        assert ps[i] in ps;
      }
    }
    CountLinesNames(t, ps, Pairs(t));
    CountLines(t, ps)
  }
}
