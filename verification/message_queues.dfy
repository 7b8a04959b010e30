/** src/posix_mqueue.c: the registry of message queues, and the deadlines of their transfers. */
module MessageQueues {
  import opened Machine
  import opened Timespecs
  import opened Clock

  const POSIX_NAME_MAX: nat := 64
  const COUNT_LIMIT: int := 0x1_0000

  type OpenCount = n: int | 0 <= n < COUNT_LIMIT

  /** A registered queue; `mqd` is its descriptor, which is its address. */
  datatype Queue = Queue(mqd: nat, name: string, count: OpenCount, pending: bool)

  /** The list of queues, and the descriptors passed to mq_free, in order. */
  datatype State = State(queues: seq<Queue>, freed: seq<nat>)

  /** What mq_open returns: an existing descriptor, a new one that the registry does not hold, or -1 with errno. */
  datatype Opened = Existing(mqd: nat) | Created | Failed(errno: Errno)

  predicate ValidName(name: string) {
    |name| > 0 && name[0] == '/' && |name| < POSIX_NAME_MAX + 2
  }

  /** The place of a descriptor in the list, or -1. */
  function PlaceOfMqd(qs: seq<Queue>, mqd: nat): (i: int)
    ensures -1 <= i < |qs|
    ensures i >= 0 ==> qs[i].mqd == mqd && forall j :: 0 <= j < i ==> qs[j].mqd != mqd
    ensures i < 0 ==> forall j :: 0 <= j < |qs| ==> qs[j].mqd != mqd
  {
    if qs == [] then -1
    else if qs[0].mqd == mqd then 0
    else
      var i := PlaceOfMqd(qs[1..], mqd);
      if i < 0 then (assert forall j :: 1 <= j < |qs| ==> qs[j] == qs[1..][j - 1]; -1) else i + 1
  }

  /** The place of a name in the list, or -1. */
  function PlaceOfName(qs: seq<Queue>, name: string): (i: int)
    ensures -1 <= i < |qs|
    ensures i >= 0 ==> qs[i].name == name && forall j :: 0 <= j < i ==> qs[j].name != name
    ensures i < 0 ==> forall j :: 0 <= j < |qs| ==> qs[j].name != name
  {
    if qs == [] then -1
    else if qs[0].name == name then 0
    else
      var i := PlaceOfName(qs[1..], name);
      if i < 0 then (assert forall j :: 1 <= j < |qs| ==> qs[j] == qs[1..][j - 1]; -1) else i + 1
  }

  /** The list without one entry, the others in their order. */
  function Without(qs: seq<Queue>, i: nat): (rest: seq<Queue>)
    requires i < |qs|
    ensures |rest| == |qs| - 1
    ensures forall j :: 0 <= j < |rest| ==> rest[j] == qs[if j < i then j else j + 1]
  {
    qs[..i] + qs[i + 1..]
  }

  /** mq_close. */
  function AfterClose(s: State, mqd: nat): (Errno, State) {
    var i := PlaceOfMqd(s.queues, mqd);
    if i < 0 then (EBADF, s)
    else
      var q := s.queues[i];
      var count := if q.count > 0 then q.count - 1 else q.count;
      if count > 0 then (OK, s.(queues := s.queues[i := q.(count := count)]))
      else if q.pending then (OK, State(Without(s.queues, i), s.freed + [mqd]))
      else (OK, s.(queues := s.queues[i := q.(count := 0, pending := true)]))
  }

  /** mq_unlink. */
  function AfterUnlink(s: State, name: string): (Errno, State) {
    if !ValidName(name) then (ENAMETOOLONG, s)
    else
      var i := PlaceOfName(s.queues, name);
      if i < 0 then (ENOENT, s)
      else if s.queues[i].count == 0 then (OK, State(Without(s.queues, i), s.freed + [s.queues[i].mqd]))
      else (OK, s.(queues := s.queues[i := s.queues[i].(pending := true)]))
  }

  /** mq_open. A queue that does not exist is allocated, if there is memory, but never put on the list. */
  function AfterOpen(s: State, name: string, create: bool, exclusive: bool, badAttr: bool, memory: bool)
    : (Opened, State)
  {
    if !ValidName(name) || badAttr then (Failed(EINVAL), s)
    else
      var i := PlaceOfName(s.queues, name);
      if i < 0 then (if create && memory then Created else Failed(ENOENT), s)
      else if exclusive && create then (Failed(EEXIST), s)
      else
        var q := s.queues[i];
        (Existing(q.mqd), s.(queues := s.queues[i := q.(count := (q.count + 1) % COUNT_LIMIT)]))
  }

  // ----- the code over its list -----

  class MqEntry {
    const mqd: nat
    const name: string
    var openCount: OpenCount
    var pendingUnlink: bool

    constructor (mqd: nat, name: string, openCount: OpenCount, pendingUnlink: bool)
      ensures Value() == Queue(mqd, name, openCount, pendingUnlink)
    {
      this.mqd, this.name := mqd, name;
      this.openCount, this.pendingUnlink := openCount, pendingUnlink;
    }

    function Value(): Queue
      reads this
    {
      Queue(mqd, name, openCount, pendingUnlink)
    }
  }

  /** The global list `allq`, walked from its head. */
  class Registry {
    var allq: seq<MqEntry>
    var freed: seq<nat>

    ghost predicate Valid()
      reads this
    {
      forall i, j :: 0 <= i < j < |allq| ==> allq[i] != allq[j]
    }

    ghost function View(): State
      reads this, allq
    {
      State(seq(|allq|, i requires 0 <= i < |allq| reads this, allq => allq[i].Value()), freed)
    }

    /** mq_check_init: the registry starts with no queue on its list. */
    constructor ()
      ensures Valid() && View() == State([], [])
    {
      allq, freed := [], [];
    }

    /** mq_extract_locked. */
    method Extract(mqd: nat) returns (i: int)
      requires Valid()
      ensures i == PlaceOfMqd(View().queues, mqd)
    {
      var p := 0;
      while p < |allq|
        invariant 0 <= p <= |allq|
        invariant forall j :: 0 <= j < p ==> View().queues[j].mqd != mqd
      {
        assert View().queues[p] == allq[p].Value();
        if allq[p].mqd == mqd {
          return p;
        }
        p := p + 1;
      }
      return -1;
    }

    /** mq_find_locked. */
    method Find(name: string) returns (i: int)
      requires Valid()
      ensures i == PlaceOfName(View().queues, name)
    {
      var p := 0;
      while p < |allq|
        invariant 0 <= p <= |allq|
        invariant forall j :: 0 <= j < p ==> View().queues[j].name != name
      {
        assert View().queues[p] == allq[p].Value();
        if allq[p].name == name {
          return p;
        }
        p := p + 1;
      }
      return -1;
    }

    /** lle_del and mq_free of the entry at place i. */
    method Delete(i: nat)
      requires Valid() && i < |allq|
      modifies this
      ensures Valid()
      ensures View() == State(Without(old(View()).queues, i), old(freed) + [old(allq)[i].mqd])
      ensures forall j :: 0 <= j < |allq| ==> allq[j] in old(allq)
    {
      freed := freed + [allq[i].mqd];
      allq := allq[..i] + allq[i + 1..];
    }

    method Close(mqd: nat) returns (ret: Errno)
      requires Valid()
      modifies this, allq
      ensures Valid()
      ensures (ret, View()) == AfterClose(old(View()), mqd)
    {
      ret := OK;
      ghost var before := View();
      var i := Extract(mqd);
      if i >= 0 {
        var mq := allq[i];
        var removed := false;
        if mq.openCount > 0 {
          mq.openCount := mq.openCount - 1;
        }
        if mq.openCount == 0 {
          if mq.pendingUnlink {
            removed := true;
          } else {
            mq.pendingUnlink := true;
          }
        }
        assert View().queues == before.queues[i := mq.Value()];
        if removed {
          Delete(i);
          assert Without(before.queues[i := mq.Value()], i) == Without(before.queues, i);
        }
      } else {
        ret := EBADF;
      }
    }

    method Unlink(name: string) returns (ret: Errno)
      requires Valid()
      modifies this, allq
      ensures Valid()
      ensures (ret, View()) == AfterUnlink(old(View()), name)
    {
      ret := OK;
      if !ValidName(name) {
        ret := ENAMETOOLONG;
      }
      if ret == OK {
        ghost var before := View();
        var i := Find(name);
        if i >= 0 {
          var mq := allq[i];
          if mq.openCount == 0 {
            Delete(i);
          } else {
            mq.pendingUnlink := true;
            assert View().queues == before.queues[i := mq.Value()];
          }
        } else {
          ret := ENOENT;
        }
      }
    }

    method Open(name: string, create: bool, exclusive: bool, badAttr: bool, memory: bool) returns (result: Opened)
      requires Valid()
      modifies this, allq
      ensures Valid()
      ensures (result, View()) == AfterOpen(old(View()), name, create, exclusive, badAttr, memory)
    {
      if !ValidName(name) {
        return Failed(EINVAL);
      }
      if badAttr {
        return Failed(EINVAL);
      }
      ghost var before := View();
      var i := Find(name);
      if i >= 0 {
        if exclusive && create {
          result := Failed(EEXIST);
        } else {
          var mq := allq[i];
          mq.openCount := (mq.openCount + 1) % COUNT_LIMIT;
          assert View().queues == before.queues[i := mq.Value()];
          result := Existing(mq.mqd);
        }
      } else if create {
        result := Created;
        if !memory {
          result := Failed(ENOENT);
        }
      } else {
        result := Failed(ENOENT);
      }
    }
  }

  // ----- what the calls return -----

  /** The names that are refused: those without the leading slash, and those of more than 65 characters. */
  predicate RefusedName(name: string) {
    name == "" || name[0] != '/' || |name| > 65
  }

  ghost predicate Listed(s: State, mqd: nat) {
    exists q :: q in s.queues && q.mqd == mqd
  }

  ghost predicate Named(s: State, name: string) {
    exists q :: q in s.queues && q.name == name
  }

  lemma PlaceIsListed(s: State, mqd: nat)
    ensures PlaceOfMqd(s.queues, mqd) >= 0 <==> Listed(s, mqd)
  {
    var i := PlaceOfMqd(s.queues, mqd);
    if i >= 0 {
      assert s.queues[i] in s.queues;
    }
  }

  lemma PlaceIsNamed(s: State, name: string)
    ensures PlaceOfName(s.queues, name) >= 0 <==> Named(s, name)
  {
    var i := PlaceOfName(s.queues, name);
    if i >= 0 {
      assert s.queues[i] in s.queues;
    }
  }

  /** mq_close succeeds exactly on a descriptor that is listed, and otherwise changes nothing. */
  lemma CloseResult(s: State, mqd: nat)
    ensures var (ret, s') := AfterClose(s, mqd);
            ret == (if Listed(s, mqd) then OK else EBADF) && (ret == EBADF ==> s' == s)
  {
    PlaceIsListed(s, mqd);
  }

  /** mq_unlink succeeds exactly on a good name that is listed, and otherwise changes nothing. */
  lemma UnlinkResult(s: State, name: string)
    ensures var (ret, s') := AfterUnlink(s, name);
            && (ret == ENAMETOOLONG <==> RefusedName(name))
            && (ret == ENOENT <==> !RefusedName(name) && !Named(s, name))
            && (ret == OK <==> !RefusedName(name) && Named(s, name))
            && (ret != OK ==> s' == s)
  {
    PlaceIsNamed(s, name);
  }

  /**
   mq_open gives the descriptor of the queue of that name, the first in the list, exactly if there is one and the call
   does not insist on creating it; O_EXCL counts only with O_CREAT. No other result changes the registry.
   */
  lemma OpenResult(s: State, name: string, create: bool, exclusive: bool, badAttr: bool, memory: bool)
    ensures var (r, s') := AfterOpen(s, name, create, exclusive, badAttr, memory);
            var refused := RefusedName(name) || badAttr;
            && (r == Failed(EINVAL) <==> refused)
            && (r == Failed(EEXIST) <==> !refused && Named(s, name) && create && exclusive)
            && (r.Existing? <==> !refused && Named(s, name) && !(create && exclusive))
            && (r == Created <==> !refused && !Named(s, name) && create && memory)
            && (r == Failed(ENOENT) <==> !refused && !Named(s, name) && !(create && memory))
            && (!r.Existing? ==> s' == s)
            && (r.Existing? ==>
                  exists i | 0 <= i < |s.queues| && s.queues[i].name == name && s.queues[i].mqd == r.mqd ::
                    && (forall j :: 0 <= j < i ==> s.queues[j].name != name)
                    && |s'.queues| == |s.queues| && s'.freed == s.freed
                    && (s'.queues[i].count - s.queues[i].count - 1) % COUNT_LIMIT == 0
                    && s'.queues[i].(count := 0) == s.queues[i].(count := 0)
                    && forall j :: 0 <= j < |s.queues| && j != i ==> s'.queues[j] == s.queues[j])
  {
    PlaceIsNamed(s, name);
  }

  // ----- runs of calls -----

  datatype Op =
    | CloseOp(mqd: nat)
    | UnlinkOp(name: string)
    | OpenOp(name: string, create: bool, exclusive: bool, badAttr: bool, memory: bool)

  function Apply(s: State, op: Op): State {
    match op
    case CloseOp(mqd) => AfterClose(s, mqd).1
    case UnlinkOp(name) => AfterUnlink(s, name).1
    case OpenOp(name, create, exclusive, badAttr, memory) => AfterOpen(s, name, create, exclusive, badAttr, memory).1
  }

  function Run(s: State, ops: seq<Op>): State
    decreases ops
  {
    if ops == [] then s else Run(Apply(s, ops[0]), ops[1..])
  }

  /** Distinct descriptors, unique names, nothing freed that is still listed, nothing freed twice. */
  ghost predicate WellFormed(s: State) {
    && (forall i, j :: 0 <= i < j < |s.queues| ==> s.queues[i].mqd != s.queues[j].mqd)
    && (forall i, j :: 0 <= i < j < |s.queues| ==> s.queues[i].name != s.queues[j].name)
    && (forall i :: 0 <= i < |s.queues| ==> s.queues[i].mqd !in s.freed)
    && (forall i, j :: 0 <= i < j < |s.freed| ==> s.freed[i] != s.freed[j])
  }

  /** A queue as its descriptor finds it. */
  function Lookup(s: State, mqd: nat): Option<Queue> {
    var i := PlaceOfMqd(s.queues, mqd);
    if i < 0 then None else Some(s.queues[i])
  }

  /** What one call does to one queue. */
  function QueueStep(q: Queue, op: Op): Option<Queue> {
    match op
    case CloseOp(mqd) =>
      if mqd != q.mqd then Some(q)
      else if q.count > 1 then Some(q.(count := q.count - 1))
      else if q.pending then None
      else Some(q.(count := 0, pending := true))
    case UnlinkOp(name) =>
      if name != q.name || !ValidName(name) then Some(q)
      else if q.count == 0 then None
      else Some(q.(pending := true))
    case OpenOp(name, create, exclusive, badAttr, memory) =>
      if name != q.name || !ValidName(name) || badAttr || (exclusive && create) then Some(q)
      else Some(q.(count := (q.count + 1) % COUNT_LIMIT))
  }

  /** The place of an entry that is listed. */
  lemma PlaceIsUnique(s: State, i: nat)
    requires WellFormed(s) && i < |s.queues|
    ensures PlaceOfMqd(s.queues, s.queues[i].mqd) == i
    ensures PlaceOfName(s.queues, s.queues[i].name) == i
    ensures Lookup(s, s.queues[i].mqd) == Some(s.queues[i])
  {
  }

  /** Replacing an entry by one with the same descriptor and name. */
  lemma ReplaceEntry(s: State, i: nat, q: Queue)
    requires WellFormed(s) && i < |s.queues| && q.mqd == s.queues[i].mqd && q.name == s.queues[i].name
    ensures var s' := s.(queues := s.queues[i := q]);
            && WellFormed(s')
            && forall mqd :: Lookup(s', mqd) == if mqd == q.mqd then Some(q) else Lookup(s, mqd)
  {
    var s' := s.(queues := s.queues[i := q]);
    assert WellFormed(s');
    forall mqd
      ensures Lookup(s', mqd) == if mqd == q.mqd then Some(q) else Lookup(s, mqd)
    {
      PlaceIsUnique(s', i);
      var j := PlaceOfMqd(s.queues, mqd);
      if j >= 0 && j != i {
        PlaceIsUnique(s', j);
      } else if j < 0 {
        assert forall k :: 0 <= k < |s'.queues| ==> s'.queues[k].mqd == s.queues[k].mqd;
      }
    }
  }

  lemma WithoutIsDistinct(s: State, i: nat)
    requires WellFormed(s) && i < |s.queues|
    ensures WellFormed(State(Without(s.queues, i), s.freed + [s.queues[i].mqd]))
  {
    var rest := Without(s.queues, i);
    assert forall k :: 0 <= k < |rest| ==> rest[k] == s.queues[if k < i then k else k + 1];
  }

  /** Deleting an entry and freeing it. */
  lemma DeleteEntry(s: State, i: nat)
    requires WellFormed(s) && i < |s.queues|
    ensures var mqd := s.queues[i].mqd;
            var s' := State(Without(s.queues, i), s.freed + [mqd]);
            && WellFormed(s')
            && forall d :: Lookup(s', d) == if d == mqd then None else Lookup(s, d)
  {
    var mqd := s.queues[i].mqd;
    var s' := State(Without(s.queues, i), s.freed + [mqd]);
    WithoutIsDistinct(s, i);
    forall d
      ensures Lookup(s', d) == if d == mqd then None else Lookup(s, d)
    {
      var j := PlaceOfMqd(s.queues, d);
      if j >= 0 && j != i {
        var k := if j < i then j else j - 1;
        assert s'.queues[k] == s.queues[j];
        PlaceIsUnique(s', k);
      } else {
        assert forall k :: 0 <= k < |s'.queues| ==> s'.queues[k] == s.queues[if k < i then k else k + 1];
      }
    }
  }

  /** The place of the queue a call concerns, or -1. */
  function Target(s: State, op: Op): (i: int)
    ensures -1 <= i < |s.queues|
  {
    match op
    case CloseOp(mqd) => PlaceOfMqd(s.queues, mqd)
    case UnlinkOp(name) => PlaceOfName(s.queues, name)
    case OpenOp(name, _, _, _, _) => PlaceOfName(s.queues, name)
  }

  lemma ApplyIsEdit(s: State, op: Op)
    ensures var i := Target(s, op);
            && (i < 0 ==> Apply(s, op) == s)
            && (i >= 0 ==>
                  match QueueStep(s.queues[i], op)
                  case None => Apply(s, op) == State(Without(s.queues, i), s.freed + [s.queues[i].mqd])
                  case Some(q) =>
                    && Apply(s, op) == s.(queues := s.queues[i := q])
                    && q.mqd == s.queues[i].mqd && q.name == s.queues[i].name)
  {
    var i := Target(s, op);
    if i >= 0 {
      assert s.queues[i := s.queues[i]] == s.queues;
    }
  }

  lemma OthersIgnore(s: State, op: Op, j: nat)
    requires WellFormed(s) && j < |s.queues| && j != Target(s, op)
    ensures QueueStep(s.queues[j], op) == Some(s.queues[j])
  {
    PlaceIsUnique(s, j);
  }

  lemma StepKeepsWellFormed(s: State, op: Op)
    requires WellFormed(s)
    ensures WellFormed(Apply(s, op))
  {
    ApplyIsEdit(s, op);
    var i := Target(s, op);
    if i >= 0 {
      match QueueStep(s.queues[i], op) {
        case None => DeleteEntry(s, i);
        case Some(q) => ReplaceEntry(s, i, q);
      }
    }
  }

  /** A call changes the queue it concerns as QueueStep says and no other, and frees exactly the queue it removes. */
  lemma StepIsLocal(s: State, op: Op, mqd: nat)
    requires WellFormed(s)
    ensures Lookup(Apply(s, op), mqd) == if Lookup(s, mqd).None? then None else QueueStep(Lookup(s, mqd).value, op)
    ensures mqd in Apply(s, op).freed <==>
            mqd in s.freed || (Lookup(s, mqd).Some? && Lookup(Apply(s, op), mqd).None?)
  {
    ApplyIsEdit(s, op);
    var i, j := Target(s, op), PlaceOfMqd(s.queues, mqd);
    if i >= 0 {
      PlaceIsUnique(s, i);
      match QueueStep(s.queues[i], op) {
        case None => DeleteEntry(s, i);
        case Some(q) => ReplaceEntry(s, i, q);
      }
    }
    if j >= 0 && j != i {
      OthersIgnore(s, op, j);
    }
  }

  /**
   Safety over whole runs, from any well-formed registry: descriptors stay distinct and names unique, nothing is
   freed twice, and a descriptor that is found is not one that has been freed.
   */
  lemma {:induction false} RunKeepsWellFormed(s: State, ops: seq<Op>)
    requires WellFormed(s)
    ensures WellFormed(Run(s, ops))
    ensures forall mqd :: Lookup(Run(s, ops), mqd).Some? ==> mqd !in Run(s, ops).freed
    decreases ops
  {
    if ops != [] {
      StepKeepsWellFormed(s, ops[0]);
      RunKeepsWellFormed(Apply(s, ops[0]), ops[1..]);
    }
  }

  /** A run seen by one queue. */
  function QueueRun(q: Option<Queue>, ops: seq<Op>): Option<Queue>
    decreases ops
  {
    if q.None? || ops == [] then q else QueueRun(QueueStep(q.value, ops[0]), ops[1..])
  }

  /** A listed queue lives through a run as QueueRun says, and is freed exactly if it does not survive. */
  lemma {:induction false} RunIsLocal(s: State, ops: seq<Op>, mqd: nat)
    requires WellFormed(s)
    ensures Lookup(Run(s, ops), mqd) == QueueRun(Lookup(s, mqd), ops)
    ensures mqd in Run(s, ops).freed <==> mqd in s.freed || (Lookup(s, mqd).Some? && Lookup(Run(s, ops), mqd).None?)
    decreases ops
  {
    if ops != [] {
      StepKeepsWellFormed(s, ops[0]);
      StepIsLocal(s, ops[0], mqd);
      RunIsLocal(Apply(s, ops[0]), ops[1..], mqd);
    }
  }

  /** A freed queue was freed by a close that left no descriptor open or by an unlink with none open. */
  lemma {:induction false} FreedOnlyAtZero(q: Queue, ops: seq<Op>) returns (k: nat, last: Queue)
    requires QueueRun(Some(q), ops).None?
    ensures k < |ops| && QueueRun(Some(q), ops[..k]) == Some(last) && QueueStep(last, ops[k]).None?
    ensures (ops[k] == UnlinkOp(q.name) && last.count == 0)
            || (ops[k] == CloseOp(q.mqd) && last.count <= 1 && last.pending)
    decreases ops
  {
    match QueueStep(q, ops[0]) {
      case None =>
        k, last := 0, q;
      case Some(q') =>
        k, last := FreedOnlyAtZero(q', ops[1..]);
        assert ops[..k + 1][1..] == ops[1..][..k];
        k := k + 1;
    }
  }

  // ----- closes and an unlink, in any order -----

  function Closes(ops: seq<Op>, mqd: nat): nat {
    if ops == [] then 0 else (if ops[0] == CloseOp(mqd) then 1 else 0) + Closes(ops[1..], mqd)
  }

  function Unlinks(ops: seq<Op>, name: string): nat {
    if ops == [] then 0 else (if ops[0] == UnlinkOp(name) then 1 else 0) + Unlinks(ops[1..], name)
  }

  predicate NoOpenOf(ops: seq<Op>, name: string) {
    forall op :: op in ops ==> !(op.OpenOp? && op.name == name)
  }

  lemma CountsCover(ops: seq<Op>, q: Queue)
    requires ops != []
    ensures Closes(ops, q.mqd) >= (if ops[0] == CloseOp(q.mqd) then 1 else 0)
    ensures Unlinks(ops, q.name) >= (if ops[0] == UnlinkOp(q.name) then 1 else 0)
  {
  }

  /**
   A queue that still awaits `count` closes, and an unlink unless it has been unlinked, is freed by the last of them.
   The pending mark stands for "unlinked" while descriptors are open and for "all closed" once none is.
   */
  lemma {:induction false} FreedAtLast(q: Queue, unlinked: bool, ops: seq<Op>)
    requires ValidName(q.name) && NoOpenOf(ops, q.name)
    requires q.pending <==> unlinked || q.count == 0
    requires unlinked ==> q.count > 0
    requires Closes(ops, q.mqd) <= q.count && Unlinks(ops, q.name) <= (if unlinked then 0 else 1)
    ensures var awaited := q.count + if unlinked then 0 else 1;
            QueueRun(Some(q), ops).None? <==> Closes(ops, q.mqd) + Unlinks(ops, q.name) == awaited
    decreases ops
  {
    if ops != [] {
      match QueueStep(q, ops[0]) {
        case None =>
          CountsCover(ops, q);
        case Some(q') =>
          FreedAtLast(q', unlinked || ops[0] == UnlinkOp(q.name), ops[1..]);
      }
    }
  }

  lemma {:induction false} OnceIfDistinct(xs: seq<nat>, x: nat)
    requires x in xs && forall i, j :: 0 <= i < j < |xs| ==> xs[i] != xs[j]
    ensures multiset(xs)[x] == 1
  {
    assert xs == [xs[0]] + xs[1..];
    if xs[0] == x {
      assert x !in xs[1..];
    } else {
      OnceIfDistinct(xs[1..], x);
    }
  }

  lemma {:induction false} PrefixCounts(ops: seq<Op>, k: nat, mqd: nat, name: string)
    requires k <= |ops|
    ensures Closes(ops[..k], mqd) <= Closes(ops, mqd) && Unlinks(ops[..k], name) <= Unlinks(ops, name)
    decreases ops
  {
    if k > 0 {
      assert ops[..k][1..] == ops[1..][..k - 1];
      PrefixCounts(ops[1..], k - 1, mqd, name);
    }
  }

  /**
   The free point does not depend on the order: from any well-formed registry, a queue with c >= 1 descriptors open
   and no unlink pending is, in every interleaving with calls on other queues of c closes and one unlink, freed
   when all c + 1 have been made and not before, and freed once.
   */
  lemma OrderIndependentFree(s: State, q: Queue, ops: seq<Op>, k: nat)
    requires WellFormed(s) && Lookup(s, q.mqd) == Some(q)
    requires ValidName(q.name) && q.count >= 1 && !q.pending
    requires Closes(ops, q.mqd) == q.count && Unlinks(ops, q.name) == 1 && NoOpenOf(ops, q.name)
    requires k <= |ops|
    ensures var s' := Run(s, ops[..k]);
            var made := Closes(ops[..k], q.mqd) + Unlinks(ops[..k], q.name);
            && made <= q.count + 1
            && (q.mqd in s'.freed <==> made == q.count + 1)
            && (Lookup(s', q.mqd).None? <==> made == q.count + 1)
    ensures multiset(Run(s, ops).freed)[q.mqd] == 1
  {
    PrefixCounts(ops, k, q.mqd, q.name);
    FreedAtLast(q, false, ops[..k]);
    RunIsLocal(s, ops[..k], q.mqd);
    FreedAtLast(q, false, ops);
    RunIsLocal(s, ops, q.mqd);
    RunKeepsWellFormed(s, ops);
    OnceIfDistinct(Run(s, ops).freed, q.mqd);
  }

  // ----- where the code departs from the standard -----

  /** The closes of a run that find at most one descriptor open. */
  function FinalCloses(q: Option<Queue>, ops: seq<Op>): nat
    decreases ops
  {
    if q.None? || ops == [] then 0
    else
      (if ops[0] == CloseOp(q.value.mqd) && q.value.count <= 1 then 1 else 0)
      + FinalCloses(QueueStep(q.value, ops[0]), ops[1..])
  }

  /**
   A queue that is never unlinked should persist. It does precisely when at most one close of the run finds at most one
   descriptor open: the first such close marks the queue as if it had been unlinked, and the second frees it.
   */
  lemma {:induction false} PersistsWithoutUnlink(q: Queue, ops: seq<Op>)
    requires Unlinks(ops, q.name) == 0
    ensures QueueRun(Some(q), ops).Some? <==> FinalCloses(Some(q), ops) <= if q.pending then 0 else 1
    decreases ops
  {
    if ops != [] {
      match QueueStep(q, ops[0]) {
        case None =>
        case Some(q') => PersistsWithoutUnlink(q', ops[1..]);
      }
    }
  }

  /** Close, reopen and close again frees a queue that nobody unlinked. */
  lemma ReopenedQueueIsLost(q: Queue)
    requires ValidName(q.name) && q.count == 1 && !q.pending
    ensures QueueRun(Some(q), [CloseOp(q.mqd), OpenOp(q.name, false, false, false, true), CloseOp(q.mqd)]) == None
  {
    var ops := [CloseOp(q.mqd), OpenOp(q.name, false, false, false, true), CloseOp(q.mqd)];
    var q1 := QueueStep(q, ops[0]).value;
    var q2 := QueueStep(q1, ops[1]).value;
    assert QueueStep(q2, ops[2]) == None;
    assert ops[1..][1..] == ops[2..];
    assert QueueRun(Some(q2), ops[2..]) == None;
    assert QueueRun(Some(q1), ops[1..]) == None;
  }

  /** An open descriptor keeps its queue alive through an unlink, unless the 16-bit count has just wrapped. */
  lemma OpenProtectsIff(s: State, q: Queue)
    requires WellFormed(s) && Lookup(s, q.mqd) == Some(q) && ValidName(q.name)
    ensures var ops := [OpenOp(q.name, false, false, false, true), UnlinkOp(q.name)];
            Lookup(Run(s, ops), q.mqd).Some? <==> q.count < COUNT_LIMIT - 1
  {
    var ops := [OpenOp(q.name, false, false, false, true), UnlinkOp(q.name)];
    RunIsLocal(s, ops, q.mqd);
    var q1 := QueueStep(q, ops[0]).value;
    assert ops[1..] == [ops[1]] && ops[1..][1..] == [];
    assert QueueRun(QueueStep(q1, ops[1]), []) == QueueStep(q1, ops[1]);
    assert QueueRun(Some(q1), ops[1..]) == QueueStep(q1, ops[1]);
  }

  /** No call puts a queue on the list: from its initial state the registry stays empty and every descriptor is bad. */
  lemma {:induction false} CreatedQueuesAreNeverFound(ops: seq<Op>, mqd: nat, name: string)
    ensures var s := Run(State([], []), ops);
            && s == State([], [])
            && AfterClose(s, mqd).0 == EBADF
            && (ValidName(name) ==> AfterUnlink(s, name).0 == ENOENT)
    decreases ops
  {
    if ops != [] {
      CreatedQueuesAreNeverFound(ops[1..], mqd, name);
    }
  }

  // ----- deadlines of transfers -----

  /** What the deadline conversion reports, without the bounds on the tick count. */
  lemma ConversionCodes(hz: int, abs: Timespec, cur: Timespec)
    requires TickRate(hz) && Valid(abs) && Valid(cur)
    ensures var c := ConvertAbsolute(hz, abs, cur);
            var n := TickCount(hz, Difference(abs, cur));
            && (c.ret == OK <==> Nanos(abs) >= Nanos(cur) && n <= UINT_MAX)
            && (c.ret == OK ==> c.ticks == Some(n))
  {
    DeadlineSandwich(hz, abs, cur);
  }

  /** What a transfer does about its deadline: a code, and how long the RTOS may block. */
  function TickTimeout(hz: int, now: Unsigned, nonblock: bool, timeout: Ptr<Timespec>): (Errno, Option<Timeout>)
    requires TickRate(hz)
  {
    if nonblock then (OK, Some(Ticks(0)))
    else if timeout == Null then (OK, Some(Forever))
    else if !Valid(timeout.val) then (EINVAL, None)
    else
      var c := ConvertAbsolute(hz, timeout.val, Reading(hz, now));
      if c.ret == OK then (OK, Some(Ticks(Written(c, 0)))) else (ETIMEDOUT, None)
  }

  /** At every tick rate a deadline of 2^32 ticks at boot, in the future, is reported as passed. */
  lemma TooLongTimesOut(hz: int)
    requires TickRate(hz)
    ensures TickTimeout(hz, 0, false, Ref(TooLong(hz))) == (ETIMEDOUT, None)
    ensures Nanos(TooLong(hz)) > Nanos(Reading(hz, 0))
  {
    TooLongIsCutToZero(hz);
    TooLongDeadline(hz);
    BootReading(hz);
  }

  /** get_tick_timeout: any failure to convert, a deadline too far off included, is reported as ETIMEDOUT. */
  method GetTickTimeout(hz: int, now: Unsigned, nonblock: bool, timeout: Ptr<Timespec>)
    returns (ret: Errno, wait: Option<Timeout>)
    requires TickRate(hz)
    requires timeout.Ref? ==> TicksFit(hz, Difference(timeout.val, Reading(hz, now)))
    ensures (ret, wait) == TickTimeout(hz, now, nonblock, timeout)
    ensures nonblock ==> ret == OK && wait == Some(Ticks(0))
    ensures !nonblock && timeout.Null? ==> ret == OK && wait == Some(Forever)
    ensures !nonblock && timeout.Ref? ==>
              && (ret == EINVAL <==> !Valid(timeout.val))
              && (ret == ETIMEDOUT <==>
                    Valid(timeout.val) && (Nanos(timeout.val) < Nanos(Reading(hz, now))
                                           || TickCount(hz, Difference(timeout.val, Reading(hz, now))) > UINT_MAX))
              && (ret == OK ==> wait.Some? && wait.value.Ticks?
                                && wait.value.n == TickCount(hz, Difference(timeout.val, Reading(hz, now))))
    ensures ret == OK || ret == EINVAL || ret == ETIMEDOUT
    ensures ret != OK ==> wait == None
  {
    ret := OK;
    wait := None;
    if nonblock {
      wait := Some(Ticks(0));
    } else if timeout == Null {
      wait := Some(Forever);
    } else {
      if !ValidateTimespec(timeout) {
        ret := EINVAL;
      }
      if ret == OK {
        var _, cur := ClockGettime(hz, now, Ref(Timespec(0, 0)));
        var converted, ticks := AbsTimespec2Ticks(hz, timeout, cur, Ref(0));
        ConversionCodes(hz, timeout.val, cur.val);
        if converted != OK {
          ret := ETIMEDOUT;
        } else {
          wait := Some(Ticks(ticks.val));
        }
      }
    }
  }
}
