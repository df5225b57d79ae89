/**
 The conversation log: the `history` table of an SQLite database, with an
 `INTEGER PRIMARY KEY AUTOINCREMENT` id, a role and a content column.

 The table is a map from row id to message; the AUTOINCREMENT sequence
 (the largest id ever issued) is kept beside it. Ids start at 1, and every
 id present in the table is at most the sequence value: that is what SQLite
 guarantees for an AUTOINCREMENT key, and `Store` carries it as a type
 invariant.
 */
module History {

  /** The two roles the application ever writes. */
  datatype Role = User | Assistant

  /** One row as `load_history` returns it: the (role, content) pair. */
  datatype Message = Message(role: Role, content: string)

  /** The table and its AUTOINCREMENT sequence, before the invariant. */
  datatype Table = Table(rows: map<nat, Message>, counter: nat)

  /** Every id in the table was issued by the sequence, so lies in [1, counter]. */
  predicate WellFormed(t: Table) {
    forall id :: id in t.rows ==> 1 <= id <= t.counter
  }

  type Store = t: Table | WellFormed(t) witness Table(map[], 0)

  /** The freshly created table: no rows, no id issued yet. */
  const Empty: Store := Table(map[], 0)

  // ---------------------------------------------------------------------------
  // Ordering by id
  // ---------------------------------------------------------------------------

  predicate Increasing(ids: seq<nat>) {
    forall i, j :: 0 <= i < j < |ids| ==> ids[i] < ids[j]
  }

  /** `ids` lists exactly the keys of `rows`, in ascending order, and `r` holds
      the row stored under each of those ids: the meaning of
      `SELECT role, content FROM history ORDER BY id ASC`. */
  ghost predicate SelectedInIdOrder(rows: map<nat, Message>, ids: seq<nat>, r: seq<Message>) {
    && |ids| == |r|
    && Increasing(ids)
    && (forall id :: id in ids <==> id in rows)
    && (forall k :: 0 <= k < |ids| ==> ids[k] in rows && r[k] == rows[ids[k]])
  }

  ghost predicate InIdOrder(rows: map<nat, Message>, r: seq<Message>) {
    exists ids :: SelectedInIdOrder(rows, ids, r)
  }

  /** The ids of `rows` in the range [lo, hi), ascending. */
  function IdsBetween(rows: map<nat, Message>, lo: nat, hi: nat): (ids: seq<nat>)
    ensures Increasing(ids)
    ensures forall id :: id in ids <==> id in rows && lo <= id < hi
    decreases hi - lo
  {
    if hi <= lo then []
    else
      var rest := IdsBetween(rows, lo + 1, hi);
      assert forall k :: 0 <= k < |rest| ==> lo < rest[k] by {
        forall k | 0 <= k < |rest| ensures lo < rest[k] { assert rest[k] in rest; }
      }
      if lo in rows then [lo] + rest else rest
  }

  /** `load_history`: the (role, content) pairs of all rows, by ascending id. */
  function Load(s: Store): (r: seq<Message>)
    ensures InIdOrder(s.rows, r)
  {
    var ids := IdsBetween(s.rows, 1, s.counter + 1);
    var r := RowsAt(s.rows, ids);
    assert SelectedInIdOrder(s.rows, ids, r);
    r
  }

  /** The rows stored under `ids`, in the order of `ids`. */
  function RowsAt(rows: map<nat, Message>, ids: seq<nat>): (r: seq<Message>)
    requires forall id :: id in ids ==> id in rows
    ensures |r| == |ids|
    ensures forall k :: 0 <= k < |ids| ==> r[k] == rows[ids[k]]
  {
    seq(|ids|, k requires 0 <= k < |ids| => rows[ids[k]])
  }

  /** Reading in id order determines the result: two id-ordered listings of the
      same table are equal. */
  lemma {:induction false} IdOrderIsUnique(rows: map<nat, Message>, ids1: seq<nat>, r1: seq<Message>,
                                           ids2: seq<nat>, r2: seq<Message>)
    requires SelectedInIdOrder(rows, ids1, r1)
    requires SelectedInIdOrder(rows, ids2, r2)
    ensures ids1 == ids2 && r1 == r2
  {
    SortedListsEqual(ids1, ids2);
  }

  /** Two increasing lists with the same elements are the same list. */
  lemma {:induction false} SortedListsEqual(a: seq<nat>, b: seq<nat>)
    requires Increasing(a) && Increasing(b)
    requires forall x :: x in a <==> x in b
    ensures a == b
    decreases |a| + |b|
  {
    if a != [] { assert a[0] in a; }
    if b != [] { assert b[0] in b; }
    if a != [] && b != [] {
      // The heads are both the minimum of the common element set.
      assert b[0] in a;
      assert a[0] in b;
      var i :| 0 <= i < |a| && a[i] == b[0];
      var j :| 0 <= j < |b| && b[j] == a[0];
      assert a[0] <= a[i] && b[0] <= b[j];
      assert a[0] == b[0];
      forall x | x in a[1..]
        ensures x in b[1..]
      {
        var p :| 1 <= p < |a| && a[p] == x;
        assert a[0] < x && x in a;
        var q :| 0 <= q < |b| && b[q] == x;
        assert q != 0;
      }
      forall x | x in b[1..]
        ensures x in a[1..]
      {
        var q :| 1 <= q < |b| && b[q] == x;
        assert b[0] < x && x in b;
        var p :| 0 <= p < |a| && a[p] == x;
        assert p != 0;
      }
      SortedListsEqual(a[1..], b[1..]);
      assert a == [a[0]] + a[1..] && b == [b[0]] + b[1..];
    }
  }

  // ---------------------------------------------------------------------------
  // Operations
  // ---------------------------------------------------------------------------

  /** `save_message`: INSERT one row. AUTOINCREMENT issues the id one past the
      largest id ever issued. */
  function Save(s: Store, role: Role, content: string): (s': Store)
    ensures s'.counter == s.counter + 1
    ensures s'.counter in s'.rows && s'.rows[s'.counter] == Message(role, content)
    ensures forall id :: id in s.rows ==> id < s'.counter
    ensures s'.rows.Keys == s.rows.Keys + {s'.counter}
    ensures forall id :: id in s.rows ==> s'.rows[id] == s.rows[id]
  {
    Table(s.rows[s.counter + 1 := Message(role, content)], s.counter + 1)
  }

  /** `reset_memory`: DELETE FROM history. The AUTOINCREMENT sequence is not
      touched, so ids are never reused. */
  function Reset(s: Store): (s': Store)
    ensures Load(s') == []
    ensures s'.counter == s.counter
  {
    var s' := Table(map[], s.counter);
    NoIdsInEmptyTable(1, s'.counter + 1);
    s'
  }

  // ---------------------------------------------------------------------------
  // What a save does to the listing
  // ---------------------------------------------------------------------------

  lemma {:induction false} NoIdsInEmptyTable(lo: nat, hi: nat)
    ensures IdsBetween(map[], lo, hi) == []
    decreases hi - lo
  {
    if lo < hi {
      NoIdsInEmptyTable(lo + 1, hi);
    }
  }

  /** Widening the range by one id adds that id at the end, if it is a key. */
  lemma {:induction false} IdsBetweenExtend(rows: map<nat, Message>, lo: nat, hi: nat)
    requires lo <= hi
    ensures IdsBetween(rows, lo, hi + 1) == IdsBetween(rows, lo, hi) + (if hi in rows then [hi] else [])
    decreases hi - lo
  {
    if lo < hi {
      IdsBetweenExtend(rows, lo + 1, hi);
    }
  }

  /** The listing of a range only depends on which ids in it are keys. */
  lemma {:induction false} IdsBetweenFrame(rows1: map<nat, Message>, rows2: map<nat, Message>, lo: nat, hi: nat)
    requires forall id :: lo <= id < hi ==> (id in rows1 <==> id in rows2)
    ensures IdsBetween(rows1, lo, hi) == IdsBetween(rows2, lo, hi)
    decreases hi - lo
  {
    if lo < hi {
      IdsBetweenFrame(rows1, rows2, lo + 1, hi);
    }
  }

  /** Private sequence helper: appending two elements one at a time is
      appending the pair. Stated once so that callers need not re-derive it
      in a context where `Load` unfolds. */
  lemma AppendPair<X>(a: seq<X>, u: X, v: X)
    ensures a + [u] + [v] == a + [u, v]
  {
  }

  /** `save_message` appends exactly one message at the end of what
      `load_history` returns; every earlier message is unchanged. */
  lemma SaveAppends(s: Store, role: Role, content: string)
    ensures Load(Save(s, role, content)) == Load(s) + [Message(role, content)]
  {
    var s' := Save(s, role, content);
    var ids := IdsBetween(s.rows, 1, s.counter + 1);
    SaveAddsLastId(s, role, content);
    assert Load(s') == RowsAt(s'.rows, ids + [s'.counter]);
    RowsAtAppend(s.rows, s'.rows, ids, s'.counter);
  }

  /** A save adds its fresh id at the end of the ascending id list. */
  lemma SaveAddsLastId(s: Store, role: Role, content: string)
    ensures IdsBetween(Save(s, role, content).rows, 1, s.counter + 2)
         == IdsBetween(s.rows, 1, s.counter + 1) + [s.counter + 1]
  {
    var rows' := Save(s, role, content).rows;
    var c := s.counter + 1;
    IdsBetweenExtend(rows', 1, c);
    IdsBetweenFrame(s.rows, rows', 1, c);
  }

  /** Listing one more id, under a table that agrees on the earlier ids,
      appends that id's row. */
  lemma RowsAtAppend(rows: map<nat, Message>, rows': map<nat, Message>, ids: seq<nat>, c: nat)
    requires forall id :: id in ids ==> id in rows && id in rows' && rows'[id] == rows[id]
    requires c in rows'
    ensures RowsAt(rows', ids + [c]) == RowsAt(rows, ids) + [rows'[c]]
  {
    var a, b := RowsAt(rows', ids + [c]), RowsAt(rows, ids) + [rows'[c]];
    forall k | 0 <= k < |a|
      ensures a[k] == b[k]
    {
      if k < |ids| { assert ids[k] in ids; }
    }
  }

  /** Just after `reset_memory`, `load_history` is empty, and the next save
      gets an id above every id the table ever held. */
  lemma ResetKeepsCounter(s: Store, role: Role, content: string)
    ensures Load(Reset(s)) == []
    ensures forall id :: id in s.rows ==> id < Save(Reset(s), role, content).counter
    ensures Load(Save(Reset(s), role, content)) == [Message(role, content)]
  {
    SaveAppends(Reset(s), role, content);
  }

  // ---------------------------------------------------------------------------
  // Histories of saves and resets
  // ---------------------------------------------------------------------------

  datatype Op = SaveOp(m: Message) | ResetOp

  /** The store after performing `ops` in order. */
  function Apply(s: Store, ops: seq<Op>): Store
    decreases |ops|
  {
    if ops == [] then s
    else
      var s1 := match ops[0]
        case SaveOp(m) => Save(s, m.role, m.content)
        case ResetOp => Reset(s);
      Apply(s1, ops[1..])
  }

  /** Reference listing: the messages saved since the last reset, appended to
      what was already there when no reset occurs. */
  function Expected(prior: seq<Message>, ops: seq<Op>): seq<Message>
    decreases |ops|
  {
    if ops == [] then prior
    else match ops[0]
      case SaveOp(m) => Expected(prior + [m], ops[1..])
      case ResetOp => Expected([], ops[1..])
  }

  function SaveCount(ops: seq<Op>): nat
    decreases |ops|
  {
    if ops == [] then 0 else (if ops[0].SaveOp? then 1 else 0) + SaveCount(ops[1..])
  }

  /** `load_history` after any history of saves and resets returns the
      messages saved since the last reset, in save order. */
  lemma {:induction false} LoadAfterOps(s: Store, ops: seq<Op>)
    ensures Load(Apply(s, ops)) == Expected(Load(s), ops)
    decreases |ops|
  {
    if ops != [] {
      match ops[0]
      case SaveOp(m) =>
        SaveAppends(s, m.role, m.content);
        LoadAfterOps(Save(s, m.role, m.content), ops[1..]);
      case ResetOp =>
        LoadAfterOps(Reset(s), ops[1..]);
    }
  }

  /** The id sequence only grows: it advances by one per save and a reset
      never lowers it, so no id is issued twice. */
  lemma {:induction false} CounterGrows(s: Store, ops: seq<Op>)
    ensures Apply(s, ops).counter == s.counter + SaveCount(ops)
    decreases |ops|
  {
    if ops != [] {
      match ops[0]
      case SaveOp(m) => CounterGrows(Save(s, m.role, m.content), ops[1..]);
      case ResetOp => CounterGrows(Reset(s), ops[1..]);
    }
  }

  /** One save per message, in order. */
  function SavesOf(msgs: seq<Message>): (ops: seq<Op>)
    decreases |msgs|
  {
    if msgs == [] then [] else [SaveOp(msgs[0])] + SavesOf(msgs[1..])
  }

  /** Starting from a fresh table with no reset, the listing is exactly the
      saved messages, one per save. */
  lemma FreshLogListsSaves(msgs: seq<Message>)
    ensures Load(Apply(Empty, SavesOf(msgs))) == msgs
  {
    LoadAfterOps(Empty, SavesOf(msgs));
    ExpectedOfSaves([], msgs);
    NoIdsInEmptyTable(1, 1);
  }

  lemma {:induction false} ExpectedOfSaves(prior: seq<Message>, msgs: seq<Message>)
    ensures Expected(prior, SavesOf(msgs)) == prior + msgs
    decreases |msgs|
  {
    if msgs != [] {
      var ops := SavesOf(msgs);
      assert ops[0] == SaveOp(msgs[0]) && ops[1..] == SavesOf(msgs[1..]);
      ExpectedOfSaves(prior + [msgs[0]], msgs[1..]);
      assert prior + [msgs[0]] + msgs[1..] == prior + msgs;
    }
  }
}
