/** Reference counting, stated without links: who holds which object. */
module RefCount {
  import opened CStrings

  /** What every owner holds, which objects were ever captured, and which were
      deleted, in order. */
  datatype State<P(==), V(==)> = State(held: map<P, Option<V>>, captured: set<V>, deleted: seq<V>)

  datatype Op<P, V> =
    | Construct(p: P, v: Option<V>)
    | CopyConstruct(p: P, from: P)
    | Assign(p: P, from: P)
    | Reset(p: P, v: Option<V>)
    | Destroy(p: P)

  ghost predicate Held<P, V>(s: State<P, V>, v: V) {
    exists p | p in s.held :: s.held[p] == Some(v)
  }

  /** p takes over an object nobody captured before, or null. */
  function Capture<P, V>(s: State<P, V>, p: P, v: Option<V>): State<P, V> {
    s.(held := s.held[p := v], captured := s.captured + if v.Some? then {v.value} else {})
  }

  function Share<P, V>(s: State<P, V>, p: P, from: P): State<P, V>
    requires from in s.held
  {
    s.(held := s.held[p := s.held[from]])
  }

  /** p gives up what it holds; the last holder's departure deletes the object. */
  ghost function Depart<P, V>(s: State<P, V>, p: P): State<P, V>
    requires p in s.held
  {
    var rest := s.(held := s.held - {p});
    if s.held[p].Some? && !Held(rest, s.held[p].value) then rest.(deleted := s.deleted + [s.held[p].value]) else rest
  }

  predicate Fresh<P, V>(s: State<P, V>, v: Option<V>) {
    v.Some? ==> v.value !in s.captured
  }

  predicate Enabled<P, V>(s: State<P, V>, op: Op<P, V>) {
    match op
    case Construct(p, v) => p !in s.held && Fresh(s, v)
    case CopyConstruct(p, from) => p !in s.held && from in s.held
    case Assign(p, from) => p in s.held && from in s.held
    case Reset(p, v) => p in s.held && Fresh(s, v)
    case Destroy(p) => p in s.held
  }

  ghost function Step<P, V>(s: State<P, V>, op: Op<P, V>): State<P, V>
    requires Enabled(s, op)
  {
    match op
    case Construct(p, v) => Capture(s, p, v)
    case CopyConstruct(p, from) => Share(s, p, from)
    case Assign(p, from) => if p == from then s else Share(Depart(s, p), p, from)
    case Reset(p, v) => Capture(Depart(s, p), p, v)
    case Destroy(p) => Depart(s, p)
  }

  /** Every captured object is held by someone or was deleted, exactly once, and never both. */
  ghost predicate Inv<P, V>(s: State<P, V>) {
    && (forall p | p in s.held && s.held[p].Some? :: s.held[p].value in s.captured && s.held[p].value !in s.deleted)
    && (forall v | v in s.captured :: v in s.deleted || Held(s, v))
    && (forall v | v in s.deleted :: v in s.captured)
    && (forall i, j | 0 <= i < j < |s.deleted| :: s.deleted[i] != s.deleted[j])
  }

  lemma DepartKeeps<P, V>(s: State<P, V>, p: P)
    requires Inv(s) && p in s.held
    ensures Inv(Depart(s, p))
    ensures forall v :: v in Depart(s, p).deleted && v !in s.deleted <==> Held(s, v) && !Held(Depart(s, p), v)
  {
    var t := Depart(s, p);
    forall v | Held(s, v) && s.held[p] != Some(v) ensures Held(t, v) {
      var q :| q in s.held && s.held[q] == Some(v);
      assert q in t.held;
    }
    forall v | Held(t, v) ensures Held(s, v) {
      var q :| q in t.held && t.held[q] == Some(v);
      assert q in s.held;
    }
    assert s.held[p].Some? ==> Held(s, s.held[p].value);
  }

  lemma ShareKeeps<P, V>(s: State<P, V>, p: P, from: P)
    requires Inv(s) && p !in s.held && from in s.held
    ensures Inv(Share(s, p, from))
    ensures forall v :: Held(Share(s, p, from), v) <==> Held(s, v)
  {
    var t := Share(s, p, from);
    forall v | Held(s, v) ensures Held(t, v) {
      var q :| q in s.held && s.held[q] == Some(v);
      assert q in t.held;
    }
    forall v | Held(t, v) ensures Held(s, v) {
      var q :| q in t.held && t.held[q] == Some(v);
      assert (if q == p then from else q) in s.held;
    }
  }

  lemma CaptureKeeps<P, V>(s: State<P, V>, p: P, v: Option<V>)
    requires Inv(s) && p !in s.held && Fresh(s, v)
    ensures Inv(Capture(s, p, v))
    ensures forall x :: Held(Capture(s, p, v), x) <==> Held(s, x) || v == Some(x)
  {
    var t := Capture(s, p, v);
    forall x | Held(s, x) ensures Held(t, x) {
      var q :| q in s.held && s.held[q] == Some(x);
      assert q in t.held;
    }
    assert v.Some? ==> t.held[p] == Some(v.value);
  }

  /** Every step keeps the invariant and deletes exactly the objects that lose their last holder in it. */
  lemma StepKeeps<P, V>(s: State<P, V>, op: Op<P, V>)
    requires Inv(s) && Enabled(s, op)
    ensures Inv(Step(s, op))
    ensures s.deleted <= Step(s, op).deleted
    ensures forall v :: v in Step(s, op).deleted && v !in s.deleted <==> Held(s, v) && !Held(Step(s, op), v)
  {
    match op {
      case Construct(p, v) => CaptureKeeps(s, p, v);
      case CopyConstruct(p, from) => ShareKeeps(s, p, from);
      case Assign(p, from) =>
        if p != from {
          DepartKeeps(s, p);
          ShareKeeps(Depart(s, p), p, from);
        }
      case Reset(p, v) =>
        DepartKeeps(s, p);
        CaptureKeeps(Depart(s, p), p, v);
      case Destroy(p) => DepartKeeps(s, p);
    }
  }

  /** Assigning from an owner of the same object deletes nothing. */
  lemma AssignWithinDeletesNothing<P, V>(s: State<P, V>, p: P, from: P)
    requires p in s.held && from in s.held && s.held[p] == s.held[from]
    ensures Step(s, Assign(p, from)) == s
  {
    if p != from {
      var rest := s.(held := s.held - {p});
      assert from in rest.held;
      assert Depart(s, p) == rest;
      assert rest.held[p := s.held[from]] == s.held;
    }
  }

  ghost predicate Runnable<P, V>(s: State<P, V>, ops: seq<Op<P, V>>)
    decreases |ops|
  {
    ops != [] ==> Enabled(s, ops[0]) && Runnable(Step(s, ops[0]), ops[1..])
  }

  ghost function Run<P, V>(s: State<P, V>, ops: seq<Op<P, V>>): State<P, V>
    requires Runnable(s, ops)
    decreases |ops|
  {
    if ops == [] then s else Run(Step(s, ops[0]), ops[1..])
  }

  /** After any sequence of operations from nothing, captured objects are conserved. */
  lemma {:induction false} RunKeeps<P, V>(s: State<P, V>, ops: seq<Op<P, V>>)
    requires Inv(s) && Runnable(s, ops)
    ensures Inv(Run(s, ops)) && s.deleted <= Run(s, ops).deleted
    decreases |ops|
  {
    if ops == [] {
    } else {
      StepKeeps(s, ops[0]);
      RunKeeps(Step(s, ops[0]), ops[1..]);
    }
  }

  lemma {:induction false} RunAppend<P, V>(s: State<P, V>, ops: seq<Op<P, V>>, op: Op<P, V>)
    requires Runnable(s, ops) && Enabled(Run(s, ops), op)
    ensures Runnable(s, ops + [op]) && Run(s, ops + [op]) == Step(Run(s, ops), op)
    decreases |ops|
  {
    var all := ops + [op];
    if ops == [] {
      assert all[1..] == [];
    } else {
      RunAppend(Step(s, ops[0]), ops[1..], op);
      assert all[1..] == ops[1..] + [op];
    }
  }

  /** The state before any operation. */
  function Nothing<P, V>(): State<P, V> { State(map[], {}, []) }

  lemma Reachable<P, V>(ops: seq<Op<P, V>>)
    requires Runnable(Nothing(), ops)
    ensures Inv(Run(Nothing(), ops))
  {
    RunKeeps(Nothing(), ops);
  }

  /** When every owner has been destroyed, exactly the captured objects have been deleted, each once. */
  lemma NothingLeaks<P, V>(ops: seq<Op<P, V>>)
    requires Runnable(Nothing(), ops) && Run<P, V>(Nothing(), ops).held == map[]
    ensures var s := Run<P, V>(Nothing(), ops);
            && (forall v :: v in s.captured <==> v in s.deleted)
            && forall i, j | 0 <= i < j < |s.deleted| :: s.deleted[i] != s.deleted[j]
  {
    Reachable(ops);
    assert forall v :: !Held(Run<P, V>(Nothing(), ops), v);
  }
}

/** linked_ptr: the owners of an object form a circular singly linked list. */
module LinkedPtrs {
  import opened CStrings
  import opened RefCount
  import opened Orders

  class Referent {}

  ghost function ToOption(v: Referent?): Option<Referent> {
    if v == null then None else Some(v)
  }

  // ----- Circles of owners -----

  function After<T>(r: seq<T>, i: nat): T
    requires i < |r|
  {
    if i + 1 < |r| then r[i + 1] else r[0]
  }

  function Rotated<T>(r: seq<T>, i: nat): seq<T>
    requires i <= |r|
  {
    r[i..] + r[..i]
  }

  /** The owners in r are linked in this order, back to the first. */
  ghost predicate Linked(r: seq<LinkedPtr>)
    reads r
  {
    Distinct(r) && forall i {:trigger r[i]} | 0 <= i < |r| :: r[i].next == After(r, i)
  }

  twostate lemma StillLinked(r: seq<LinkedPtr>)
    requires old(Linked(r)) && forall p | p in r :: p.next == old(p.next)
    ensures Linked(r)
  {
  }

  lemma RotatedAt<T>(r: seq<T>, i: nat)
    requires i < |r|
    ensures |Rotated(r, i)| == |r|
    ensures forall k | 0 <= k < |r| :: Rotated(r, i)[k] == r[if k < |r| - i then i + k else i + k - |r|]
    ensures forall q :: q in Rotated(r, i) <==> q in r
  {
    var s := Rotated(r, i);
    forall q | q in r ensures q in s {
      var k :| 0 <= k < |r| && r[k] == q;
      assert s[if k >= i then k - i else k + |r| - i] == q;
    }
  }

  lemma RotatedDistinct<T>(r: seq<T>, i: nat)
    requires Distinct(r) && i < |r|
    ensures Distinct(Rotated(r, i))
  {
    RotatedAt(r, i);
  }

  lemma RotatedLinked(r: seq<LinkedPtr>, p: LinkedPtr) returns (i: nat)
    requires Linked(r) && p in r
    ensures i < |r| && r[i] == p
    ensures Rotated(r, i)[0] == p && |Rotated(r, i)| == |r|
    ensures Linked(Rotated(r, i))
    ensures forall q :: q in Rotated(r, i) <==> q in r
  {
    i :| 0 <= i < |r| && r[i] == p;
    var s := Rotated(r, i);
    RotatedAt(r, i);
    RotatedDistinct(r, i);
    hide Rotated, Distinct;
    forall k | 0 <= k < |s| ensures s[k].next == After(s, k) {
      assert s[k] == r[if k < |r| - i then i + k else i + k - |r|];
    }
  }

  /** Every owner of an object lies on that object's circle, which has no other members. */
  ghost predicate Circled<P, V>(held: map<P, Option<V>>, captured: set<V>, circles: map<V, seq<P>>) {
    && (forall p | p in held && held[p].Some? :: held[p].value in circles && p in circles[held[p].value])
    && (forall v, p | v in circles && p in circles[v] :: p in held && held[p] == Some(v))
    && (forall v | v in circles :: circles[v] != [] && v in captured)
  }

  /** The circle p is on: that of its object, or its own when it holds none. */
  ghost function CircleOf<P, V>(held: map<P, Option<V>>, circles: map<V, seq<P>>, p: P): seq<P> {
    if p in held && held[p].Some? && held[p].value in circles then circles[held[p].value] else [p]
  }

  lemma CircleLeave<P, V>(held: map<P, Option<V>>, captured: set<V>, circles: map<V, seq<P>>, p: P, rest: seq<P>)
    requires Circled(held, captured, circles) && p in held && held[p].Some?
    requires forall q :: q in rest <==> q in CircleOf(held, circles, p) && q != p
    ensures var v := held[p].value;
            && Circled(held - {p}, captured, if rest == [] then circles - {v} else circles[v := rest])
            && (rest == [] <==> forall q | q in held && q != p :: held[q] != held[p])
  {
    forall q | q in held && q != p && held[q] == held[p] ensures q in rest {}
    if rest != [] {
      assert rest[0] in rest;
    }
  }

  lemma NullLeaves<P, V>(held: map<P, Option<V>>, captured: set<V>, circles: map<V, seq<P>>, p: P)
    requires Circled(held, captured, circles) && p in held && held[p].None?
    ensures Circled(held - {p}, captured, circles)
  {
  }

  lemma SingleLinked(p: LinkedPtr)
    ensures p.next == p ==> Linked([p])
  {
  }

  lemma CircleJoin<P, V>(held: map<P, Option<V>>, captured: set<V>, circles: map<V, seq<P>>, p: P, from: P,
      joined: seq<P>)
    requires Circled(held, captured, circles) && p !in held && from in held && held[from].Some?
    requires forall q :: q in joined <==> q == p || q in CircleOf(held, circles, from)
    ensures Circled(held[p := held[from]], captured, circles[held[from].value := joined])
  {
    assert p in joined;
  }

  lemma CircleNew<P, V>(held: map<P, Option<V>>, captured: set<V>, circles: map<V, seq<P>>, p: P, v: Option<V>)
    requires Circled(held, captured, circles) && p !in held && (v.Some? ==> v.value !in captured)
    ensures Circled(held[p := v], captured, circles) || v.Some?
    ensures v.Some? ==> Circled(held[p := v], captured + {v.value}, circles[v.value := [p]])
  {
  }

  lemma CircleFacts<P, V>(held: map<P, Option<V>>, captured: set<V>, circles: map<V, seq<P>>)
    requires Circled(held, captured, circles)
    ensures forall p | p in held :: p in CircleOf(held, circles, p)
    ensures forall p | p in held && held[p].Some? :: held[p].value in circles && held[p].value in captured
    ensures forall v, p | v in circles && p in circles[v] :: p in held && held[p] == Some(v)
  {
  }

  lemma CirclesApart<P, V>(held: map<P, Option<V>>, captured: set<V>, circles: map<V, seq<P>>, p: P)
    requires Circled(held, captured, circles)
    ensures forall v, q | v in circles && q in circles[v] ::
              (p in held && held[p] == Some(v)) || q !in CircleOf(held, circles, p)
  {
    forall v, q | v in circles && q in circles[v] && q in CircleOf(held, circles, p)
      ensures p in held && held[p] == Some(v)
    {
      assert q in held && held[q] == Some(v);
    }
  }

  /** Everything the program has done with owners: what the live ones hold, what was
      captured and what was deleted, and the circle of the holders of each object. */
  class World {
    ghost var held: map<LinkedPtr, Option<Referent>>
    ghost var captured: set<Referent>
    ghost var deleted: seq<Referent>
    ghost var circles: map<Referent, seq<LinkedPtr>>
    /** The operations so far, in order. */
    ghost var ops: seq<Op<LinkedPtr, Referent>>

    constructor ()
      ensures Valid() && ops == []
    {
      held, captured, deleted, circles, ops := map[], {}, [], map[], [];
    }

    /** The heap is linked as it should be, and it is what the operations lead to by reference counting. */
    ghost predicate Valid()
      reads this, held.Keys
    {
      InCircles() && Runnable(Nothing(), ops) && State() == Run(Nothing(), ops)
    }

    /** Every owner lies on exactly one circle, with all and only the other holders of its object. */
    ghost predicate InCircles()
      reads this, held.Keys
    {
      && Circled(held, captured, circles)
      && (forall p | p in held :: held[p] == ToOption(p.value) && (held[p].None? ==> p.next == p))
      && (forall v | v in circles :: (forall p | p in circles[v] :: p in held) && Linked(circles[v]))
    }

    /** Takes note of an operation that has changed the state as reference counting does. */
    ghost method Happened(op: Op<LinkedPtr, Referent>)
      requires InCircles() && Runnable(Nothing(), ops) && Enabled(Run(Nothing(), ops), op)
      requires State() == Step(Run(Nothing(), ops), op)
      modifies this`ops
      ensures Valid() && ops == old(ops) + [op]
    {
      hide Circled, Linked, Step, Enabled, Run, Runnable;
      RunAppend(Nothing(), ops, op);
      ops := ops + [op];
    }

    /** In every state of the heap an object that was captured is held or was deleted, once, and never both. */
    lemma Conserved()
      requires Valid()
      ensures Inv(State())
    {
      hide Circled, Linked, Run, Runnable, Inv;
      Reachable(ops);
    }

    /** Once no owner is left, exactly the captured objects have been deleted, each once. */
    lemma NothingIsLeft()
      requires Valid() && held == map[]
      ensures forall v: Referent :: v in captured <==> v in deleted
      ensures forall i, j | 0 <= i < j < |deleted| :: deleted[i] != deleted[j]
    {
      hide Circled, Linked, Run, Runnable;
      NothingLeaks(ops);
    }

    ghost function State(): State<LinkedPtr, Referent>
      reads this
    {
      RefCount.State(held, captured, deleted)
    }

    ghost method Record(held': map<LinkedPtr, Option<Referent>>, captured': set<Referent>, deleted': seq<Referent>,
                        circles': map<Referent, seq<LinkedPtr>>)
      requires Circled(held', captured', circles')
      requires forall p | p in held' :: held'[p] == ToOption(p.value) && (held'[p].None? ==> p.next == p)
      requires forall v | v in circles' :: Linked(circles'[v])
      modifies this`held, this`captured, this`deleted, this`circles
      ensures InCircles() && held == held' && captured == captured' && deleted == deleted'
    {
      hide Linked, Circled;
      CircleFacts(held', captured', circles');
      held, captured, deleted, circles := held', captured', deleted', circles';
    }

    ghost function Circle(p: LinkedPtr): seq<LinkedPtr>
      reads this
    {
      CircleOf(held, circles, p)
    }

    /** The circle of an owner is linked and shares no member with the other circles. */
    lemma Around(p: LinkedPtr)
      requires InCircles() && p in held
      ensures p in Circle(p) && Linked(Circle(p))
      ensures p.value == null ==> Circle(p) == [p]
      ensures p.value != null ==> p.value in circles && Circle(p) == circles[p.value]
      ensures forall v, q | v in circles && v != p.value && q in circles[v] :: q !in Circle(p)
      ensures forall q | q in Circle(p) :: q in held && q.value == p.value
    {
      hide Linked, Circled;
      CircleFacts(held, captured, circles);
      CirclesApart(held, captured, circles, p);
      SingleLinked(p);
    }
  }

  class LinkedPtr {
    var value: Referent?
    var next: LinkedPtr

    constructor (ptr: Referent?, ghost w: World)
      requires w.Valid() && (ptr != null ==> ptr !in w.captured)
      modifies w
      ensures w.Valid() && this !in old(w.held) && w.ops == old(w.ops) + [Construct(this, ToOption(ptr))]
    {
      value := null;
      next := this;
      new;
      hide Step, Run, Runnable, Linked, Circled;
      StepIs(w.State(), Construct(this, ToOption(ptr)));
      Capture(ptr, w);
      w.Happened(Construct(this, ToOption(ptr)));
    }

    constructor CopyOf(ptr: LinkedPtr, ghost w: World)
      requires w.Valid() && ptr in w.held
      modifies w, w.held.Keys`next
      ensures w.Valid() && this !in old(w.held) && w.ops == old(w.ops) + [CopyConstruct(this, ptr)]
    {
      value := null;
      next := this;
      new;
      hide Step, Run, Runnable, Linked, Circled;
      StepIs(w.State(), CopyConstruct(this, ptr));
      Copy(ptr, w);
      w.Happened(CopyConstruct(this, ptr));
    }

    method Assign(ptr: LinkedPtr, ghost w: World)
      requires w.Valid() && this in w.held && ptr in w.held
      modifies w, w.held.Keys`next, this
      ensures w.Valid() && w.ops == old(w.ops) + [RefCount.Assign(this, ptr)]
    {
      hide Step, Run, Runnable, Linked, Circled;
      StepIs(w.State(), RefCount.Assign(this, ptr));
      if ptr != this {
        Depart(w);
        Copy(ptr, w);
      }
      w.Happened(RefCount.Assign(this, ptr));
    }

    method Reset(ptr: Referent?, ghost w: World)
      requires w.Valid() && this in w.held && (ptr != null ==> ptr !in w.captured)
      modifies w, w.held.Keys`next, this
      ensures w.Valid() && w.ops == old(w.ops) + [RefCount.Reset(this, ToOption(ptr))]
    {
      hide Step, Run, Runnable, Linked, Circled;
      StepIs(w.State(), RefCount.Reset(this, ToOption(ptr)));
      Depart(w);
      Capture(ptr, w);
      w.Happened(RefCount.Reset(this, ToOption(ptr)));
    }

    /** The destructor. */
    method Destroy(ghost w: World)
      requires w.Valid() && this in w.held
      modifies w, w.held.Keys`next
      ensures w.Valid() && w.ops == old(w.ops) + [RefCount.Destroy(this)]
    {
      hide Step, Run, Runnable, Linked, Circled;
      StepIs(w.State(), RefCount.Destroy(this));
      Depart(w);
      w.Happened(RefCount.Destroy(this));
    }

    static lemma StepIs(s: State<LinkedPtr, Referent>, op: Op<LinkedPtr, Referent>)
      requires Enabled(s, op)
      ensures match op
              case Construct(p, v) => Step(s, op) == RefCount.Capture(s, p, v)
              case CopyConstruct(p, from) => Step(s, op) == Share(s, p, from)
              case Assign(p, from) => Step(s, op) == if p == from then s else Share(RefCount.Depart(s, p), p, from)
              case Reset(p, v) => Step(s, op) == RefCount.Capture(RefCount.Depart(s, p), p, v)
              case Destroy(p) => Step(s, op) == RefCount.Depart(s, p)
    {
    }

    /** Leaves the circle; the last member deletes the object. */
    method Depart(ghost w: World)
      requires w.InCircles() && this in w.held
      modifies w`held, w`captured, w`deleted, w`circles, w.held.Keys`next
      ensures w.InCircles() && w.held == old(w.held) - {this}
      ensures w.State() == RefCount.Depart(old(w.State()), this)
    {
      hide Linked, Circled, CircleOf;
      w.Around(this);
      ghost var s, r := w.State(), w.Circle(this);
      var last, rest := DepartRing(r);
      ghost var circles: map<Referent, seq<LinkedPtr>> := w.circles;
      if value != null {
        CircleLeave(w.held, w.captured, w.circles, this, rest);
        ghost var v: Referent := value;
        circles := if rest == [] then circles - {v} else circles[v := rest];
      } else {
        NullLeaves(w.held, w.captured, w.circles, this);
      }
      assert Linked(rest);
      forall v | v in circles ensures Linked(circles[v]) {
        if v != value {
          ghost var c := w.circles[v];
          assert circles[v] == c && old(Linked(c));
          assert forall q | q in c :: q !in r;
          StillLinked(c);
        } else {
          assert circles[v] == rest;
        }
      }
      DepartState(s, this, rest == []);
      w.Record(w.held - {this}, w.captured, if last && value != null then w.deleted + [value] else w.deleted, circles);
    }

    static lemma DepartState(s: State<LinkedPtr, Referent>, p: LinkedPtr, gone: bool)
      requires p in s.held
      requires s.held[p].Some? ==> (gone <==> forall q | q in s.held && q != p :: s.held[q] != s.held[p])
      ensures RefCount.Depart(s, p) ==
              s.(held := s.held - {p},
                 deleted := if gone && s.held[p].Some? then s.deleted + [s.held[p].value] else s.deleted)
    {
      var rest := s.(held := s.held - {p});
      if s.held[p].Some? && !gone {
        var q :| q in s.held && q != p && s.held[q] == s.held[p];
        assert q in rest.held;
      }
    }

    method Capture(ptr: Referent?, ghost w: World)
      requires w.InCircles() && this !in w.held && (ptr != null ==> ptr !in w.captured)
      modifies this, w`held, w`captured, w`deleted, w`circles
      ensures w.InCircles()
      ensures w.State() == RefCount.Capture(old(w.State()), this, ToOption(ptr))
    {
      hide Linked, Circled, CircleOf;
      CirclesApart(w.held, w.captured, w.circles, this);
      CircleNew(w.held, w.captured, w.circles, this, ToOption(ptr));
      value := ptr;
      JoinNew();
      ghost var captured := if ptr == null then w.captured else w.captured + {ptr};
      ghost var circles := if ptr == null then w.circles else w.circles[ptr := [this]];
      forall v | v in circles ensures Linked(circles[v]) {
        if v != ptr {
          ghost var c := w.circles[v];
          assert circles[v] == c && old(Linked(c)) && this !in c;
          StillLinked(c);
        }
      }
      w.Record(w.held[this := ToOption(ptr)], captured, w.deleted, circles);
    }

    method Copy(ptr: LinkedPtr, ghost w: World)
      requires w.InCircles() && this !in w.held && ptr in w.held
      modifies this, w`held, w`captured, w`deleted, w`circles, w.held.Keys`next
      ensures w.InCircles()
      ensures w.State() == Share(old(w.State()), this, ptr)
    {
      hide Linked, Circled, CircleOf;
      w.Around(ptr);
      ghost var r := w.Circle(ptr);
      value := ptr.value;
      ghost var circles: map<Referent, seq<LinkedPtr>> := w.circles;
      if value != null {
        ghost var joined := Join(ptr, r);
        CircleJoin(w.held, w.captured, w.circles, this, ptr, joined);
        ghost var v: Referent := value;
        circles := circles[v := joined];
      } else {
        CircleNew(w.held, w.captured, w.circles, this, None);
        JoinNew();
      }
      forall v | v in circles ensures Linked(circles[v]) {
        if v != value {
          ghost var c := w.circles[v];
          assert circles[v] == c && old(Linked(c));
          assert this !in c && forall q | q in c :: q !in r;
          StillLinked(c);
        }
      }
      w.Record(w.held[this := ToOption(value)], w.captured, w.deleted, circles);
    }

    /** Creates a circle that holds only this owner. */
    method JoinNew()
      modifies this`next
      ensures next == this && Linked([this])
    {
      next := this;
    }

    /** Joins the circle r that ptr is on, just before ptr. */
    method Join(ptr: LinkedPtr, ghost r: seq<LinkedPtr>) returns (ghost joined: seq<LinkedPtr>)
      requires ptr in r && Linked(r) && this !in r
      modifies this`next, r`next
      ensures Linked(joined) && |joined| == |r| + 1 && joined[0] == ptr && joined[|r|] == this
      ensures forall q :: q in joined <==> q == this || q in r
    {
      ghost var i := RotatedLinked(r, ptr);
      ghost var s := Rotated(r, i);
      joined := s + [this];
      hide Rotated, Linked;
      Splice(ptr, s);
    }

    /** Links the last member of s to this one, and this one to the first. */
    method Splice(first: LinkedPtr, ghost s: seq<LinkedPtr>)
      requires Linked(s) && s != [] && s[0] == first && this !in s
      modifies this`next, s`next
      ensures Linked(s + [this])
    {
      LinkedMeans(s);
      hide Linked, Distinct, After;
      var p := WalkTo(first, first, s, 0);
      p.next := this;
      next := first;
      JoinedLinked(s, s + [this]);
    }

    /** Walks around the circle s, from its member k to the one before its first. */
    method WalkTo(from: LinkedPtr, first: LinkedPtr, ghost s: seq<LinkedPtr>, ghost k: nat) returns (p: LinkedPtr)
      requires Linked(s) && k < |s| && s[0] == first && s[k] == from
      ensures p == s[|s| - 1]
    {
      p := from;
      ghost var at := k;
      while p.next != first
        invariant k <= at < |s| && p == s[at]
        decreases |s| - at
      {
        p := p.next;
        at := at + 1;
      }
    }

    static lemma LinkedMeans(s: seq<LinkedPtr>)
      requires Linked(s) && s != []
      ensures Distinct(s) && (forall k | 0 <= k < |s| - 1 :: s[k].next == s[k + 1]) && s[|s| - 1].next == s[0]
      ensures forall k | 1 <= k < |s| :: s[k] != s[0] && (k < |s| - 1 ==> s[k] != s[|s| - 1])
      ensures s[0].next == s[0] <==> |s| == 1
      ensures |s| == 1 ==> Linked(s[1..])
      ensures |s| > 1 ==> s[0].next == s[1]
    {
    }

    lemma JoinedLinked(s: seq<LinkedPtr>, joined: seq<LinkedPtr>)
      requires Distinct(s) && s != [] && this !in s && joined == s + [this]
      requires next == s[0] && s[|s| - 1].next == this && forall k | 0 <= k < |s| - 1 :: s[k].next == s[k + 1]
      ensures Linked(joined)
    {
      forall k | 0 <= k < |joined| ensures joined[k].next == After(joined, k) {
        assert k < |s| ==> joined[k] == s[k];
      }
    }

    /** Leaves the circle r; was this its only member? The rest stay linked. */
    method DepartRing(ghost r: seq<LinkedPtr>) returns (last: bool, ghost rest: seq<LinkedPtr>)
      requires this in r && Linked(r)
      modifies r`next
      ensures last <==> |r| == 1
      ensures forall q :: q in rest <==> q in r && q != this
      ensures Linked(rest) && |rest| == |r| - 1
    {
      ghost var i := RotatedLinked(r, this);
      ghost var s := Rotated(r, i);
      rest := s[1..];
      LinkedMeans(s);
      TailMembers(s, r);
      hide Rotated, Linked, Distinct, After;
      if next == this {
        return true, rest;
      }
      Cut(s, next);
      return false, rest;
    }

    static lemma TailMembers<T>(s: seq<T>, r: seq<T>)
      requires s != [] && Distinct(s) && forall q :: q in s <==> q in r
      ensures forall q :: q in s[1..] <==> q in r && q != s[0]
    {
      assert s == [s[0]] + s[1..];
    }

    /** Links the member before this one to the one after it. */
    method Cut(ghost s: seq<LinkedPtr>, second: LinkedPtr)
      requires Linked(s) && |s| > 1 && s[0] == this && s[1] == second == next
      modifies s`next
      ensures Linked(s[1..])
    {
      LinkedMeans(s);
      hide Linked, Distinct, After;
      var p := WalkTo(second, this, s, 1);
      p.next := next;
      CutLinked(s, s[1..]);
    }

    lemma CutLinked(s: seq<LinkedPtr>, rest: seq<LinkedPtr>)
      requires Distinct(s) && |s| > 1 && rest == s[1..]
      requires s[|s| - 1].next == s[1] && forall k | 1 <= k < |s| - 1 :: s[k].next == s[k + 1]
      ensures Linked(rest)
    {
      forall k | 0 <= k < |rest| ensures rest[k].next == After(rest, k) {
        assert rest[k] == s[k + 1];
      }
    }
  }
}
