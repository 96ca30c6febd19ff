/**
 * The per-thread error channel: a process-wide table, created on first use,
 * from thread identity to the bytes of that thread's last error message.
 */
module Errors {
  import opened Wrappers
  import opened Bytes

  /** A thread's identity; the calling thread is passed in explicitly. */
  type ThreadId = nat

  /** The contents of the global `ERROR` slot: absent until the first error. */
  type Table = Option<map<ThreadId, seq<int>>>

  /** What `libimage_get_err` finds for thread `t`. */
  function Lookup(tab: Table, t: ThreadId): (r: Option<seq<int>>)
    ensures r.None? <==> tab.None? || t !in tab.value
    ensures r.Some? ==> r.value == tab.value[t]
  {
    if tab.Some? && t in tab.value then Some(tab.value[t]) else None
  }

  /** The table after `set_err(m)` on thread `t`. */
  function Store(tab: Table, t: ThreadId, m: Text): (r: Table)
    ensures r.Some?
    ensures Lookup(r, t) == Some(CStringBytes(m))
    ensures forall u {:trigger Lookup(r, u)} :: u != t ==> Lookup(r, u) == Lookup(tab, u)
  {
    var entries := if tab.None? then map[] else tab.value;
    Some(entries[t := CStringBytes(m)])
  }

  /** The table after `libimage_reset_err` on thread `t`. */
  function Remove(tab: Table, t: ThreadId): (r: Table)
    ensures r.None? <==> tab.None?
    ensures Lookup(r, t) == None
    ensures forall u {:trigger Lookup(r, u)} :: u != t ==> Lookup(r, u) == Lookup(tab, u)
  {
    if tab.None? then None else Some(tab.value - {t})
  }

  /** A later message on the same thread replaces the earlier one outright. */
  lemma StoreOverwrites(tab: Table, t: ThreadId, a: Text, b: Text)
    ensures Store(Store(tab, t, a), t, b) == Store(tab, t, b)
  {
    var entries := if tab.None? then map[] else tab.value;
    assert entries[t := CStringBytes(a)][t := CStringBytes(b)] == entries[t := CStringBytes(b)];
  }

  /** Resetting after storing leaves the thread with no message. */
  lemma RemoveAfterStore(tab: Table, t: ThreadId, m: Text)
    ensures Lookup(Remove(Store(tab, t, m), t), t) == None
  {
  }

  /** One access to the table by some thread. */
  datatype Access = SetErr(thread: ThreadId, message: Text) | ResetErr(thread: ThreadId)

  function Apply(tab: Table, a: Access): Table
  {
    match a
    case SetErr(u, m) => Store(tab, u, m)
    case ResetErr(u) => Remove(tab, u)
  }

  /** The table after a sequence of accesses, in order. */
  function Replay(tab: Table, accesses: seq<Access>): Table
    decreases |accesses|
  {
    if accesses == [] then tab else Replay(Apply(tab, accesses[0]), accesses[1..])
  }

  /**
   * Threads never see each other's messages: whatever other threads store or
   * reset, thread `t` finds what it found before.
   */
  lemma {:induction false} OtherThreadsInvisible(tab: Table, accesses: seq<Access>, t: ThreadId)
    requires forall i :: 0 <= i < |accesses| ==> accesses[i].thread != t
    ensures Lookup(Replay(tab, accesses), t) == Lookup(tab, t)
    decreases |accesses|
  {
    if accesses != [] {
      assert accesses[0].thread != t;
      var next := Apply(tab, accesses[0]);
      assert Lookup(next, t) == Lookup(tab, t);
      OtherThreadsInvisible(next, accesses[1..], t);
    }
  }

  /** The global `ERROR` static and the three functions that touch it. */
  class ErrorChannel {
    var table: Table

    /** The static's initial value, `Mutex::new(None)`. */
    constructor ()
      ensures table == None
    {
      table := None;
    }

    /** `set_err`: create the map if absent, then insert the message bytes. */
    method Set(t: ThreadId, message: Text)
      modifies this
      ensures table == Store(old(table), t, message)
    {
      if table.None? {
        table := Some(map[]);
      }
      table := Some(table.value[t := CStringBytes(message)]);
    }

    /**
     * `libimage_get_err`: the calling thread's message, or null. The source
     * takes `&x[0]`, so a stored message must not be empty.
     */
    method Get(t: ThreadId) returns (p: Option<seq<int>>)
      requires Lookup(table, t).Some? ==> |Lookup(table, t).value| > 0
      ensures p.Some? <==> table.Some? && t in table.value
      ensures p == Lookup(table, t)
      ensures p.Some? ==> p.value == table.value[t] && |p.value| > 0
    {
      match table
      case None => p := None;
      case Some(m) =>
        if t in m {
          var x := m[t];
          assert |x| > 0;
          p := Some(x);
        } else {
          p := None;
        }
    }

    /** `libimage_reset_err`: drop the calling thread's entry, if any. */
    method Reset(t: ThreadId)
      modifies this
      ensures table == Remove(old(table), t)
    {
      match table
      case None =>
      case Some(m) => table := Some(m - {t});
    }
  }
}
