/** Reference counts of transactions, and the circular list of all transactions that have any
    (xacto/src/transaction.c 5-158, xacto/src/data.c 209-243). */
module TransRefs {

  import opened Bytes
  import opened Sequences

  /** A transaction, as far as references go. The nodes of the dependency list are the elements of depends. */
  class Transaction {
    var id: word
    var refcnt: nat
    var depends: seq<Transaction>
    var next: Transaction?
    var prev: Transaction?

    constructor (id: word)
      ensures this.id == id && refcnt == 0 && depends == [] && next == prev == null
    {
      this.id, refcnt, depends, next, prev := id, 0, [], null, null;
    }
  }

  // ---------------------------------------------------------------------------------------------
  // The circular list
  // ---------------------------------------------------------------------------------------------

  function Next(t: Transaction): Transaction?
    reads t`next
  {
    t.next
  }

  function Prev(t: Transaction): Transaction?
    reads t`prev
  {
    t.prev
  }

  /** The element at position i of a ring, where -1 and |ring| go around. */
  ghost function At(ring: seq<Transaction>, i: int): Transaction
    requires -1 <= i <= |ring| && ring != []
  {
    if i == -1 then ring[|ring| - 1] else if i == |ring| then ring[0] else ring[i]
  }

  /** The links lead around the ring in both directions, and nothing is in it twice. */
  ghost predicate Ring(ring: seq<Transaction>)
    reads (set t | t in ring)`next, (set t | t in ring)`prev
  {
    && ring != []
    && Distinct(ring)
    && (forall i {:trigger Next(ring[i])} | 0 <= i < |ring| :: Next(ring[i]) == At(ring, i + 1))
    && (forall i {:trigger Prev(ring[i])} | 0 <= i < |ring| :: Prev(ring[i]) == At(ring, i - 1))
  }

  /** tp goes between the last element of the ring and its first, the sentinel. */
  method LinkLast(tp: Transaction, sentinel: Transaction, ghost ring: seq<Transaction>)
    requires Ring(ring) && ring[0] == sentinel && tp !in ring
    modifies tp`next, tp`prev, (set t | t in ring)`next, sentinel`prev
    ensures Ring(ring + [tp])
  {
    assert Prev(ring[0]) == At(ring, -1) && Next(ring[|ring| - 1]) == At(ring, |ring|);
    tp.prev := sentinel.prev;
    tp.next := sentinel;
    sentinel.prev.next := tp;
    sentinel.prev := tp;
    ghost var now := ring + [tp];
    forall i | 0 <= i < |now| ensures Next(now[i]) == At(now, i + 1) {
      assert i < |ring| ==> old(Next(ring[i])) == At(ring, i + 1);
    }
    forall i | 0 <= i < |now| ensures Prev(now[i]) == At(now, i - 1) {
      assert i < |ring| ==> old(Prev(ring[i])) == At(ring, i - 1);
    }
  }

  /** tp, which is not the sentinel, leaves the ring. */
  method Unlink(tp: Transaction, ghost ring: seq<Transaction>, ghost k: nat)
    requires Ring(ring) && 0 < k < |ring| && ring[k] == tp
    modifies (set t | t in ring)`next, (set t | t in ring)`prev
    ensures Ring(ring[..k] + ring[k + 1..])
  {
    assert Next(ring[k]) == At(ring, k + 1) && Prev(ring[k]) == At(ring, k - 1);
    tp.next.prev := tp.prev;
    tp.prev.next := tp.next;
    ghost var now := ring[..k] + ring[k + 1..];
    forall i | 0 <= i < |now| ensures Next(now[i]) == At(now, i + 1) && Prev(now[i]) == At(now, i - 1) {
      AtWithout(ring, k, i);
      var j := if i < k then i else i + 1;
      assert old(Next(ring[j])) == At(ring, j + 1) && old(Prev(ring[j])) == At(ring, j - 1);
    }
    WithoutIsDistinct(ring, k);
  }

  /** Leaving out position k, its neighbours become each other's. */
  lemma AtWithout(ring: seq<Transaction>, k: nat, i: nat)
    requires Distinct(ring) && 0 < k < |ring| && i < |ring| - 1
    ensures var now, j := ring[..k] + ring[k + 1..], if i < k then i else i + 1;
      && now[i] == ring[j] != ring[k]
      && At(now, i + 1) == (if At(ring, j + 1) == ring[k] then At(ring, k + 1) else At(ring, j + 1))
      && At(now, i - 1) == (if At(ring, j - 1) == ring[k] then At(ring, k - 1) else At(ring, j - 1))
      && (At(ring, j + 1) == ring[k] <==> ring[j] == At(ring, k - 1))
      && (At(ring, j - 1) == ring[k] <==> ring[j] == At(ring, k + 1))
  {
  }

  lemma WithoutIsDistinct(ring: seq<Transaction>, k: nat)
    requires Distinct(ring) && k < |ring|
    ensures Distinct(ring[..k] + ring[k + 1..])
  {
  }

  // ---------------------------------------------------------------------------------------------
  // Who holds references
  // ---------------------------------------------------------------------------------------------

  /** A version, as far as its reference to its creator goes. */
  class Version {
    const creator: Transaction

    constructor (creator: Transaction)
      ensures this.creator == creator
    {
      this.creator := creator;
    }
  }

  /** What is on record about a transaction: how many were created before it, its reference count, and the
      transactions in its dependency list. */
  datatype Entry = Entry(serial: nat, refcnt: nat, depends: seq<Transaction>)

  /** The transactions not yet freed, oldest first, with their entries; how many have been created; and who holds
      references besides the dependency lists: the callers of the manager (owners), the versions not disposed of,
      and the dependency nodes that were freed with their dependents (lost), which never gave theirs back. */
  datatype Book = Book(live: seq<Transaction>, entries: seq<Entry>, total: nat,
                       owners: multiset<Transaction>, versions: seq<Version>, lost: multiset<Transaction>)

  ghost function Creators(versions: seq<Version>): multiset<Transaction> {
    if versions == [] then multiset{} else multiset{versions[0].creator} + Creators(versions[1..])
  }

  ghost function Dependees(entries: seq<Entry>): multiset<Transaction> {
    if entries == [] then multiset{} else multiset(entries[0].depends) + Dependees(entries[1..])
  }

  /** All references, with multiplicity. */
  ghost function Holders(b: Book): multiset<Transaction> {
    b.owners + Creators(b.versions) + Dependees(b.entries) + b.lost
  }

  /** The transactions are in the order of their creation. */
  ghost predicate Ordered(entries: seq<Entry>, total: nat) {
    && (forall i, j | 0 <= i < j < |entries| :: entries[i].serial < entries[j].serial)
    && (forall i | 0 <= i < |entries| :: entries[i].serial < total)
  }

  /** Every count is the number of references there are, and every transaction that is referred to is live. */
  ghost predicate Counts(live: seq<Transaction>, entries: seq<Entry>, held: multiset<Transaction>) {
    && |entries| == |live|
    && (forall i | 0 <= i < |live| :: entries[i].refcnt == held[live[i]] > 0)
    && (forall t | t in held :: t in live)
  }

  /** The book is right if there are, besides its holders, the references of `extra`. */
  ghost predicate Sound(b: Book, extra: multiset<Transaction>) {
    Distinct(b.live) && Ordered(b.entries, b.total) && Counts(b.live, b.entries, Holders(b) + extra)
  }

  // What the operations do to the book.

  function Created(b: Book, t: Transaction): Book {
    b.(live := b.live + [t], entries := b.entries + [Entry(b.total, 1, [])], total := b.total + 1,
       owners := b.owners + multiset{t})
  }

  /** One more reference to the k-th live transaction. */
  function Referred(b: Book, k: nat): Book
    requires k < |b.entries|
  {
    b.(entries := b.entries[k := b.entries[k].(refcnt := b.entries[k].refcnt + 1)])
  }

  /** One reference less; the last one frees the transaction, together with its dependency nodes. */
  function Dropped(b: Book, k: nat): Book
    requires k < |b.entries| == |b.live|
  {
    if b.entries[k].refcnt > 1 then
      b.(entries := b.entries[k := b.entries[k].(refcnt := b.entries[k].refcnt - 1)])
    else
      b.(live := b.live[..k] + b.live[k + 1..], entries := b.entries[..k] + b.entries[k + 1..],
         lost := b.lost + multiset(b.entries[k].depends))
  }

  /** A dependency node for t in the list of the k-th live transaction. */
  function Depending(b: Book, k: nat, t: Transaction): Book
    requires k < |b.entries|
  {
    b.(entries := b.entries[k := b.entries[k].(depends := b.entries[k].depends + [t])])
  }

  // ---------------------------------------------------------------------------------------------
  // Counting
  // ---------------------------------------------------------------------------------------------

  lemma {:induction false} CreatorsWithout(versions: seq<Version>, k: nat)
    requires k < |versions|
    ensures Creators(versions) == Creators(versions[..k] + versions[k + 1..]) + multiset{versions[k].creator}
  {
    var rest := versions[..k] + versions[k + 1..];
    if k == 0 {
      assert rest == versions[1..];
    } else {
      CreatorsWithout(versions[1..], k - 1);
      assert rest[1..] == versions[1..][..k - 1] + versions[1..][k..];
    }
  }

  lemma CreatorsWith(versions: seq<Version>, v: Version)
    ensures Creators(versions + [v]) == Creators(versions) + multiset{v.creator}
  {
    var all := versions + [v];
    CreatorsWithout(all, |versions|);
    assert all[..|versions|] + all[|versions| + 1..] == versions;
  }

  lemma {:induction false} DependeesWithout(entries: seq<Entry>, k: nat)
    requires k < |entries|
    ensures Dependees(entries) == Dependees(entries[..k] + entries[k + 1..]) + multiset(entries[k].depends)
  {
    var rest := entries[..k] + entries[k + 1..];
    if k == 0 {
      assert rest == entries[1..];
    } else {
      DependeesWithout(entries[1..], k - 1);
      assert rest[1..] == entries[1..][..k - 1] + entries[1..][k..];
    }
  }

  lemma DependeesUpdated(entries: seq<Entry>, k: nat, e: Entry)
    requires k < |entries|
    ensures Dependees(entries[k := e]) + multiset(entries[k].depends) == Dependees(entries) + multiset(e.depends)
  {
    var now := entries[k := e];
    DependeesWithout(entries, k);
    DependeesWithout(now, k);
    assert now[..k] + now[k + 1..] == entries[..k] + entries[k + 1..];
  }

  lemma DependeesWith(entries: seq<Entry>, e: Entry)
    ensures Dependees(entries + [e]) == Dependees(entries) + multiset(e.depends)
  {
    var now := entries + [e];
    DependeesWithout(now, |entries|);
    assert now[..|entries|] + now[|entries| + 1..] == entries;
  }

  // ---------------------------------------------------------------------------------------------
  // Every operation keeps the book right
  // ---------------------------------------------------------------------------------------------

  lemma CountsOneMore(live: seq<Transaction>, entries: seq<Entry>, held: multiset<Transaction>, k: nat)
    requires Distinct(live) && Counts(live, entries, held) && k < |live|
    ensures Counts(live, entries[k := entries[k].(refcnt := entries[k].refcnt + 1)], held + multiset{live[k]})
  {
  }

  lemma CountsOneLess(live: seq<Transaction>, entries: seq<Entry>, held: multiset<Transaction>, k: nat)
    requires k < |live| && Distinct(live) && Counts(live, entries, held + multiset{live[k]}) && entries[k].refcnt > 1
    ensures Counts(live, entries[k := entries[k].(refcnt := entries[k].refcnt - 1)], held)
  {
    var more := held + multiset{live[k]};
    forall t | t in held ensures t in live { assert t in more; }
    forall i | 0 <= i < |live| && i != k ensures more[live[i]] == held[live[i]] {
    }
  }

  lemma LiveWithout(live: seq<Transaction>, k: nat)
    requires k < |live| && Distinct(live)
    ensures var rest := live[..k] + live[k + 1..];
      Distinct(rest) && forall t :: t in rest <==> t in live && t != live[k]
  {
    var rest := live[..k] + live[k + 1..];
    forall t | t in live && t != live[k] ensures t in rest {
      var i :| 0 <= i < |live| && live[i] == t;
      assert rest[if i < k then i else i - 1] == t;
    }
  }

  lemma CountsWithout(live: seq<Transaction>, entries: seq<Entry>, held: multiset<Transaction>, k: nat)
    requires k < |live| && Distinct(live) && Counts(live, entries, held + multiset{live[k]}) && entries[k].refcnt == 1
    ensures Counts(live[..k] + live[k + 1..], entries[..k] + entries[k + 1..], held) && live[k] !in held
  {
    var more, rest := held + multiset{live[k]}, live[..k] + live[k + 1..];
    LiveWithout(live, k);
    assert more[live[k]] == 1;
    forall t | t in held ensures t in live && t != live[k] {
      assert t in more;
    }
    forall i | 0 <= i < |live| && i != k ensures entries[i].refcnt == held[live[i]] > 0 {
      assert live[i] != live[k] && more[live[i]] == held[live[i]];
    }
    assert |live| == |entries|;
    hide Counts, Distinct;
    CountsShifted(live, entries, held, k);
  }

  lemma CountsShifted(live: seq<Transaction>, entries: seq<Entry>, held: multiset<Transaction>, k: nat)
    requires k < |live| == |entries|
    requires forall i | 0 <= i < |live| && i != k :: entries[i].refcnt == held[live[i]] > 0
    requires forall t | t in held :: t in live[..k] + live[k + 1..]
    ensures Counts(live[..k] + live[k + 1..], entries[..k] + entries[k + 1..], held)
  {
  }

  lemma CountsNew(live: seq<Transaction>, entries: seq<Entry>, held: multiset<Transaction>, t: Transaction, e: Entry)
    requires Counts(live, entries, held) && t !in live && e.refcnt == 1
    ensures Counts(live + [t], entries + [e], held + multiset{t})
  {
    forall i | 0 <= i < |live| ensures (held + multiset{t})[live[i]] == held[live[i]] {
    }
  }

  lemma HoldersOfCreated(b: Book, t: Transaction)
    ensures Holders(Created(b, t)) == Holders(b) + multiset{t}
  {
    DependeesWith(b.entries, Entry(b.total, 1, []));
    hide Creators, Dependees;
  }

  lemma SameDepends(entries: seq<Entry>, k: nat, e: Entry)
    requires k < |entries| && e.depends == entries[k].depends
    ensures Dependees(entries[k := e]) == Dependees(entries)
  {
    DependeesUpdated(entries, k, e);
    hide Dependees;
    Cancel(Dependees(entries[k := e]), Dependees(entries), multiset(e.depends));
  }

  lemma Cancel(a: multiset<Transaction>, b: multiset<Transaction>, c: multiset<Transaction>)
    requires a + c == b + c
    ensures a == b
  {
    assert (a + c) - c == a && (b + c) - c == b;
  }

  /** Freeing a transaction moves its nodes to those that are lost; otherwise the nodes stay where they are. */
  lemma HoldersOfDropped(b: Book, k: nat)
    requires k < |b.entries| == |b.live|
    ensures Holders(Dropped(b, k)) == Holders(b)
  {
    var e := b.entries[k];
    if e.refcnt > 1 {
      SameDepends(b.entries, k, e.(refcnt := e.refcnt - 1));
    } else {
      DependeesWithout(b.entries, k);
    }
    hide Creators, Dependees;
  }

  lemma HoldersOfDepending(b: Book, k: nat, t: Transaction)
    requires k < |b.entries|
    ensures Holders(Depending(b, k, t)) == Holders(b) + multiset{t}
  {
    var c, d := Depending(b, k, t), multiset(b.entries[k].depends);
    DependeesUpdated(b.entries, k, c.entries[k]);
    assert multiset(c.entries[k].depends) == multiset{t} + d;
    hide Creators, Dependees;
    assert Dependees(c.entries) + d == (Dependees(b.entries) + multiset{t}) + d;
    Cancel(Dependees(c.entries), Dependees(b.entries) + multiset{t}, d);
  }

  lemma NoExtra(held: multiset<Transaction>)
    ensures held + multiset{} == held
  {
  }

  lemma CreatedIsSound(b: Book, t: Transaction)
    requires Sound(b, multiset{}) && t !in b.live
    ensures Sound(Created(b, t), multiset{})
  {
    HoldersOfCreated(b, t);
    NoExtra(Holders(b));
    NoExtra(Holders(b) + multiset{t});
    hide Holders;
    CountsNew(b.live, b.entries, Holders(b), t, Entry(b.total, 1, []));
    hide Counts;
  }

  /** A reference more than there are holders. */
  lemma ReferredIsSound(b: Book, k: nat)
    requires Sound(b, multiset{}) && k < |b.live|
    ensures Sound(Referred(b, k), multiset{b.live[k]})
    ensures Holders(Referred(b, k)) == Holders(b)
  {
    SameDepends(b.entries, k, Referred(b, k).entries[k]);
    assert Holders(Referred(b, k)) == Holders(b);
    NoExtra(Holders(b));
    hide Holders;
    CountsOneMore(b.live, b.entries, Holders(b), k);
    OrderedUpdated(b.entries, b.total, k, Referred(b, k).entries[k]);
    hide Counts, Ordered, Distinct;
  }

  /** A reference less than before, when nobody holds it any more. That frees the transaction exactly when nobody
      at all holds one. */
  lemma DroppedIsSound(b: Book, k: nat)
    requires k < |b.live| && Sound(b, multiset{b.live[k]})
    ensures Sound(Dropped(b, k), multiset{})
    ensures b.live[k] in Dropped(b, k).live <==> b.live[k] in Holders(b)
  {
    HoldersOfDropped(b, k);
    NoExtra(Holders(b));
    var e, held := b.entries[k], Holders(b);
    assert e.refcnt == held[b.live[k]] + 1;
    hide Holders;
    if e.refcnt > 1 {
      CountsOneLess(b.live, b.entries, held, k);
      OrderedUpdated(b.entries, b.total, k, e.(refcnt := e.refcnt - 1));
      hide Counts, Ordered, Distinct;
    } else {
      CountsWithout(b.live, b.entries, held, k);
      LiveWithout(b.live, k);
      OrderedWithout(b.entries, b.total, k);
      hide Counts, Ordered, Distinct;
    }
  }

  lemma OrderedUpdated(entries: seq<Entry>, total: nat, k: nat, e: Entry)
    requires Ordered(entries, total) && k < |entries| && e.serial == entries[k].serial
    ensures Ordered(entries[k := e], total)
  {
  }

  lemma CountsSame(live: seq<Transaction>, entries: seq<Entry>, held: multiset<Transaction>, k: nat, e: Entry)
    requires Counts(live, entries, held) && k < |entries| && e.refcnt == entries[k].refcnt
    ensures Counts(live, entries[k := e], held)
  {
  }

  lemma OrderedWithout(entries: seq<Entry>, total: nat, k: nat)
    requires Ordered(entries, total) && k < |entries|
    ensures Ordered(entries[..k] + entries[k + 1..], total)
  {
  }

  /** The one reference that nobody held goes to a dependency node. */
  lemma DependingIsSound(b: Book, k: nat, j: nat)
    requires k < |b.live| && j < |b.live| && Sound(b, multiset{b.live[j]})
    ensures Sound(Depending(b, k, b.live[j]), multiset{})
  {
    HoldersOfDepending(b, k, b.live[j]);
    NoExtra(Holders(b) + multiset{b.live[j]});
    hide Holders;
    var e := Depending(b, k, b.live[j]).entries[k];
    CountsSame(b.live, b.entries, Holders(b) + multiset{b.live[j]}, k, e);
    OrderedUpdated(b.entries, b.total, k, e);
    hide Counts, Ordered, Distinct;
  }

  // ---------------------------------------------------------------------------------------------
  // Runs of operations
  // ---------------------------------------------------------------------------------------------

  /** Create a transaction; take and give back a reference; make a version that takes over the caller's reference,
      and take it back from one that is disposed of; put the caller's reference into a dependency node. */
  datatype Op = Create(t: Transaction) | Take(k: nat) | Release(k: nat) | Keep(v: Version) | Discard(i: nat)
              | Depend(k: nat, t: Transaction)

  ghost predicate Enabled(b: Book, op: Op) {
    match op
    case Create(t) => t !in b.live
    case Take(k) => k < |b.live| == |b.entries|
    case Release(k) => k < |b.live| == |b.entries| && b.live[k] in b.owners
    case Keep(v) => v.creator in b.owners
    case Discard(i) => i < |b.versions|
    case Depend(k, t) => k < |b.live| == |b.entries| && t in b.owners
  }

  ghost function Apply(b: Book, op: Op): Book
    requires Enabled(b, op)
  {
    match op
    case Create(t) => Created(b, t)
    case Take(k) =>
      Referred(b, k).(owners := b.owners + multiset{b.live[k]})
    case Release(k) =>
      Dropped(b.(owners := b.owners - multiset{b.live[k]}), k)
    case Keep(v) =>
      b.(owners := b.owners - multiset{v.creator}, versions := b.versions + [v])
    case Discard(i) =>
      b.(owners := b.owners + multiset{b.versions[i].creator}, versions := b.versions[..i] + b.versions[i + 1..])
    case Depend(k, t) =>
      Depending(b, k, t).(owners := b.owners - multiset{t})
  }

  lemma KeepOrDiscardMoves(b: Book, op: Op)
    requires Sound(b, multiset{}) && Enabled(b, op) && (op.Keep? || op.Discard?)
    ensures Holders(Apply(b, op)) == Holders(b)
  {
    if op.Keep? {
      CreatorsWith(b.versions, op.v);
    } else {
      CreatorsWithout(b.versions, op.i);
    }
    hide Creators, Dependees;
  }

  lemma OwnerMoves(b: Book, t: Transaction)
    ensures Holders(b.(owners := b.owners + multiset{t})) == Holders(b) + multiset{t}
    ensures t in b.owners ==> Holders(b) == Holders(b.(owners := b.owners - multiset{t})) + multiset{t}
  {
    hide Creators, Dependees;
  }

  /** Every operation keeps every count equal to the number of references. */
  lemma OperationIsSound(b: Book, op: Op)
    requires Sound(b, multiset{}) && Enabled(b, op)
    ensures Sound(Apply(b, op), multiset{})
  {
    match op
    case Create(t) => CreatedIsSound(b, t);
    case Take(k) =>
      ReferredIsSound(b, k);
      OwnerMoves(Referred(b, k), b.live[k]);
      NoExtra(Holders(Apply(b, op)));
    case Release(k) =>
      OwnerMoves(b, b.live[k]);
      NoExtra(Holders(b));
      DroppedIsSound(b.(owners := b.owners - multiset{b.live[k]}), k);
    case Keep(v) => KeepOrDiscardMoves(b, op);
    case Discard(i) => KeepOrDiscardMoves(b, op);
    case Depend(k, t) =>
      OwnerMoves(b, t);
      NoExtra(Holders(b));
      assert t in Holders(b);
      var j :| 0 <= j < |b.live| && b.live[j] == t;
      DependingIsSound(b.(owners := b.owners - multiset{t}), k, j);
  }

  ghost predicate ValidRun(b: Book, ops: seq<Op>)
    decreases |ops|
  {
    ops == [] || (Enabled(b, ops[0]) && ValidRun(Apply(b, ops[0]), ops[1..]))
  }

  ghost function Exec(b: Book, ops: seq<Op>): Book
    requires ValidRun(b, ops)
    decreases |ops|
  {
    if ops == [] then b else Exec(Apply(b, ops[0]), ops[1..])
  }

  const EMPTY_BOOK := Book([], [], 0, multiset{}, [], multiset{})

  /** Over every run, the count of each live transaction is the number of references to it, every transaction that
      is referred to is live, and a transaction is live only while it is referred to. */
  lemma {:induction false} RunIsSound(b: Book, ops: seq<Op>)
    requires Sound(b, multiset{}) && ValidRun(b, ops)
    ensures var end := Exec(b, ops);
      && Sound(end, multiset{})
      && (forall t :: t in end.live <==> t in Holders(end))
      && (forall i | 0 <= i < |end.live| :: end.entries[i].refcnt == Holders(end)[end.live[i]])
    decreases |ops|
  {
    if ops == [] {
      NoExtra(Holders(b));
      forall t | t in b.live ensures t in Holders(b) {
        var i :| 0 <= i < |b.live| && b.live[i] == t;
        assert b.entries[i].refcnt == Holders(b)[b.live[i]] > 0;
      }
    } else {
      OperationIsSound(b, ops[0]);
      RunIsSound(Apply(b, ops[0]), ops[1..]);
    }
  }

  lemma {:induction false} LostGrows(b: Book, ops: seq<Op>)
    requires Sound(b, multiset{}) && ValidRun(b, ops)
    ensures b.lost <= Exec(b, ops).lost
    decreases |ops|
  {
    if ops != [] {
      OperationIsSound(b, ops[0]);
      LostGrows(Apply(b, ops[0]), ops[1..]);
    }
  }

  /** A transaction that a freed transaction depended on is never freed, whatever happens: the nodes were freed
      without giving their references back. */
  lemma LostIsNeverFreed(b: Book, ops: seq<Op>, t: Transaction)
    requires Sound(b, multiset{}) && ValidRun(b, ops)
    requires t in b.lost
    ensures t in Exec(b, ops).live
  {
    LostGrows(b, ops);
    RunIsSound(b, ops);
    hide Exec, Sound;
    assert t in Exec(b, ops).lost;
  }

  /** A transaction that nobody refers to any more, not a caller, not a version, not a dependency node of a live
      transaction, is still there exactly when it was lost: a node that was freed did refer to it. */
  lemma LiveOnlyIfLost(b: Book, t: Transaction)
    requires Sound(b, multiset{})
    requires t !in b.owners && t !in Creators(b.versions) && t !in Dependees(b.entries)
    ensures t in b.live <==> t in b.lost
  {
    RunIsSound(b, []);
    hide Sound, Creators, Dependees;
    assert t in Holders(b) <==> t in b.lost;
  }

  lemma SecondIsFreed(first: Transaction, second: Transaction)
    requires first != second
    ensures var both := multiset{first, second};
      Apply(Book([first, second], [Entry(0, 2, []), Entry(1, 1, [first])], 2, both, [], multiset{}), Release(1))
      == Book([first], [Entry(0, 2, [])], 2, multiset{first}, [], multiset{first})
  {
  }

  /** It happens: a second transaction depends on a first, both callers give up their references, the second is
      freed, and the first stays with a count that nothing will bring down. */
  lemma FirstIsLost(first: Transaction, second: Transaction)
    requires first != second
    ensures var ops := [Create(first), Create(second), Take(0), Depend(1, first), Release(1), Release(0)];
      && ValidRun(EMPTY_BOOK, ops)
      && var end := Exec(EMPTY_BOOK, ops);
         end.live == [first] && end.owners == multiset{} && end.versions == [] && end.lost == multiset{first}
  {
    var none: seq<Transaction> := [];
    var b1 := Book([first], [Entry(0, 1, [])], 1, multiset{first}, [], multiset{});
    var b2 := Book([first, second], [Entry(0, 1, []), Entry(1, 1, [])], 2, multiset{first, second}, [], multiset{});
    var b3 := b2.(entries := [Entry(0, 2, []), Entry(1, 1, [])], owners := multiset{first, first, second});
    var b4 := b2.(entries := [Entry(0, 2, []), Entry(1, 1, [first])]);
    var b5 := Book([first], [Entry(0, 2, [])], 2, multiset{first}, [], multiset{first});
    var b6 := Book([first], [Entry(0, 1, [])], 2, multiset{}, [], multiset{first});
    assert Apply(EMPTY_BOOK, Create(first)) == b1;
    assert Apply(b1, Create(second)) == b2;
    assert Apply(b2, Take(0)) == b3;
    assert none + [first] == [first];
    assert Apply(b3, Depend(1, first)) == b4;
    assert Apply(b5, Release(0)) == b6;
    hide Apply;
    SecondIsFreed(first, second);
    RunOf(b5, [Release(0)]);
    RunOf(b4, [Release(1), Release(0)]);
    RunOf(b3, [Depend(1, first), Release(1), Release(0)]);
    RunOf(b2, [Take(0), Depend(1, first), Release(1), Release(0)]);
    RunOf(b1, [Create(second), Take(0), Depend(1, first), Release(1), Release(0)]);
    RunOf(EMPTY_BOOK, [Create(first), Create(second), Take(0), Depend(1, first), Release(1), Release(0)]);
  }

  lemma RunOf(b: Book, ops: seq<Op>)
    requires ops != []
    ensures ValidRun(b, ops) <==> Enabled(b, ops[0]) && ValidRun(Apply(b, ops[0]), ops[1..])
    ensures ValidRun(b, ops) ==> Exec(b, ops) == Exec(Apply(b, ops[0]), ops[1..])
  {
  }

  /** The list runs in the order of increasing identifiers as long as the identifiers have not wrapped around. */
  lemma IdsIncrease(b: Book, i: nat, j: nat)
    requires Sound(b, multiset{}) && b.total <= TWO32
    requires i < j < |b.entries|
    ensures b.entries[i].serial % TWO32 < b.entries[j].serial % TWO32
  {
  }

  // ---------------------------------------------------------------------------------------------
  // The manager
  // ---------------------------------------------------------------------------------------------

  /** The transaction manager, and the book that describes what is in memory. */
  class TransactionManager {
    const transList: Transaction
    var uniqueId: word
    ghost var book: Book

    /** The links, identifiers, counts and dependency lists in memory are those of the book. */
    ghost predicate Shows()
      reads this, transList, book.live
    {
      Ring([transList] + book.live) && AllMatch(book.live, book.entries) && uniqueId == book.total % TWO32
    }

    ghost predicate Valid()
      reads this, transList, book.live
    {
      Shows() && Sound(book, multiset{})
    }

    constructor ()
      ensures Valid() && fresh(transList) && book == EMPTY_BOOK
    {
      var sentinel := new Transaction(TWO32 - 1);
      sentinel.next, sentinel.prev := sentinel, sentinel;
      transList, uniqueId, book := sentinel, 0, EMPTY_BOOK;
      new;
      assert [transList] + book.live == [transList];
    }

    /** A new transaction, last in the list, with one reference, which is the caller's. */
    method TransCreate() returns (tp: Transaction)
      requires Valid()
      modifies this, transList, book.live
      ensures Valid() && fresh(tp)
      ensures Enabled(old(book), Create(tp)) && book == Apply(old(book), Create(tp))
    {
      hide Sound, Ring, AllMatch;
      tp := NewLast(uniqueId, transList, book);
      NextId(book.total);
      uniqueId := (uniqueId + 1) % TWO32;
      OperationIsSound(book, Create(tp));
      book := Apply(book, Create(tp));
    }

    /** One more reference, which is the caller's. */
    method TransRef(tp: Transaction?, ghost k: nat) returns (r: Transaction?)
      requires Valid() && (tp != null ==> k < |book.live| && book.live[k] == tp)
      modifies `book, (set t | t in book.live)`refcnt
      ensures Valid() && r == tp
      ensures tp != null ==> Enabled(old(book), Take(k))
      ensures book == if tp == null then old(book) else Apply(old(book), Take(k))
      ensures tp != null ==> tp.refcnt == old(tp.refcnt) + 1
    {
      hide Sound, Ring, AllMatch, Distinct, Apply, Enabled;
      r := tp;
      if tp != null {
        Refer(tp, k);
      }
    }

    method Refer(tp: Transaction, ghost k: nat)
      requires Valid() && k < |book.live| && book.live[k] == tp
      modifies `book, tp`refcnt
      ensures Valid() && Enabled(old(book), Take(k)) && book == Apply(old(book), Take(k))
      ensures tp.refcnt == old(tp.refcnt) + 1
    {
      hide Sound, Ring, AllMatch, Distinct, Apply, Referred, Enabled;
      TakeKeeps(book, k);
      IncrementCount(tp, book, k);
      book := Apply(book, Take(k));
    }

    /** The caller gives up a reference. */
    method TransUnref(tp: Transaction?, ghost k: nat)
      requires Valid() && (tp != null ==> k < |book.live| && book.live[k] == tp && tp in book.owners)
      modifies `book, (set t | t in book.live)`refcnt
      modifies ({transList} + set t | t in book.live)`next, ({transList} + set t | t in book.live)`prev
      ensures Valid()
      ensures tp != null ==> Enabled(old(book), Release(k))
      ensures book == if tp == null then old(book) else Apply(old(book), Release(k))
    {
      hide Sound, Ring, AllMatch, Distinct, Apply, Enabled;
      if tp != null {
        Unrefer(tp, k);
      }
    }

    method Unrefer(tp: Transaction, ghost k: nat)
      requires Valid() && k < |book.live| && book.live[k] == tp && tp in book.owners
      modifies `book, tp`refcnt
      modifies ({transList} + set t | t in book.live)`next, ({transList} + set t | t in book.live)`prev
      ensures Valid() && Enabled(old(book), Release(k)) && book == Apply(old(book), Release(k))
    {
      hide Sound, Ring, AllMatch, Distinct, Apply, Dropped, Enabled;
      ReleaseKeeps(book, k);
      DropInMemory(tp, transList, book, k);
      book := Apply(book, Release(k));
    }

    /** Records that tp depends on dtp. The search for dtp, by identifier, stops before the last node. */
    method TransAddDependency(tp: Transaction?, dtp: Transaction?, ghost k: nat, ghost j: nat)
      requires Valid()
      requires tp != null ==> k < |book.live| && book.live[k] == tp
      requires dtp != null ==> j < |book.live| && book.live[j] == dtp
      modifies `book, (set t | t in book.live)`refcnt, (set t | t in book.live)`depends
      ensures Valid()
      ensures tp != null && dtp != null ==>
          Enabled(old(book), Take(j)) && Enabled(Apply(old(book), Take(j)), Depend(k, dtp))
      ensures book ==
          if tp == null || dtp == null || old(Listed(tp.depends, dtp.id)) then old(book)
          else Apply(Apply(old(book), Take(j)), Depend(k, dtp))
      ensures tp != null && dtp != null ==>
          var found := exists n | 0 <= n < |old(tp.depends)| - 1 :: old(tp.depends)[n].id == dtp.id;
          && tp.depends == old(tp.depends) + (if found then [] else [dtp])
          && dtp.refcnt == old(dtp.refcnt) + (if found then 0 else 1)
    {
      hide Sound, Ring, AllMatch, Distinct, Apply, Enabled;
      if tp != null && dtp != null {
        TakeKeeps(book, j);
        DependKeeps(Apply(book, Take(j)), k, j);
        var found := FindNode(tp, dtp.id);
        if !found {
          Refer(dtp, j);
          AddNode(tp, dtp, k, j);
        }
      }
    }

    /** A node at the end of the list of tp, which takes over the reference to dtp. */
    method AddNode(tp: Transaction, dtp: Transaction, ghost k: nat, ghost j: nat)
      requires Valid() && k < |book.live| && book.live[k] == tp
      requires j < |book.live| && book.live[j] == dtp && dtp in book.owners
      modifies `book, tp`depends
      ensures Valid() && Enabled(old(book), Depend(k, dtp)) && book == Apply(old(book), Depend(k, dtp))
      ensures tp.depends == old(tp.depends) + [dtp]
    {
      hide Sound, Ring, AllMatch, Distinct, Apply, Depending, Enabled;
      DependKeeps(book, k, j);
      AppendNode(tp, dtp, book, k);
      book := Apply(book, Depend(k, dtp));
    }

    /** A version holds a reference to its creator. Without a creator one is made, and the reference that comes
        with it stays with the caller. */
    method VersionCreate(tp: Transaction?, ghost k: nat) returns (vp: Version)
      requires Valid() && if tp == null then k == |book.live| else k < |book.live| && book.live[k] == tp
      modifies this, transList, book.live
      ensures Valid() && fresh(vp) && (if tp == null then fresh(vp.creator) else vp.creator == tp)
      ensures Enabled(old(book), Create(vp.creator)) || tp != null
      ensures var b := if tp == null then Apply(old(book), Create(vp.creator)) else old(book);
        Enabled(b, Take(k)) && Enabled(Apply(b, Take(k)), Keep(vp)) && book == Apply(Apply(b, Take(k)), Keep(vp))
    {
      hide Sound, Ring, AllMatch, Apply, Enabled;
      var creator := tp;
      if creator == null {
        ghost var before := book;
        creator := TransCreate();
        CreateAppends(before, creator);
      }
      TakeKeeps(book, k);
      Refer(creator, k);
      vp := new Version(creator);
      KeepKeeps(book, vp);
      book := Apply(book, Keep(vp));
    }

    /** Disposing of a version gives its reference back. */
    method VersionDispose(vp: Version?, ghost i: nat, ghost k: nat)
      requires Valid()
      requires vp != null ==>
          i < |book.versions| && book.versions[i] == vp && k < |book.live| && book.live[k] == vp.creator
      modifies `book, (set t | t in book.live)`refcnt
      modifies ({transList} + set t | t in book.live)`next, ({transList} + set t | t in book.live)`prev
      ensures Valid()
      ensures vp != null ==> Enabled(old(book), Discard(i)) && Enabled(Apply(old(book), Discard(i)), Release(k))
      ensures book == if vp == null then old(book) else Apply(Apply(old(book), Discard(i)), Release(k))
    {
      hide Sound, Ring, AllMatch, Apply, Enabled;
      if vp != null {
        DiscardKeeps(book, i);
        book := Apply(book, Discard(i));
        Unrefer(vp.creator, k);
      }
    }
  }

  /** A new transaction in memory, behind the last one. */
  method NewLast(id: word, first: Transaction, ghost b: Book) returns (tp: Transaction)
    requires Ring([first] + b.live) && AllMatch(b.live, b.entries) && id == b.total % TWO32
    modifies ({first} + set t | t in b.live)`next, first`prev
    ensures fresh(tp) && Ring([first] + (b.live + [tp]))
    ensures AllMatch(b.live + [tp], b.entries + [Entry(b.total, 1, [])])
  {
    tp := new Transaction(id);
    tp.refcnt := tp.refcnt + 1;
    MatchAlso(b.live, b.entries, tp, Entry(b.total, 1, []));
    assert tp !in [first] + b.live;
    hide Ring, AllMatch, Matches;
    LinkLast(tp, first, [first] + b.live);
    Regroup([first], b.live, [tp]);
  }

  method FindNode(tp: Transaction, id: word) returns (found: bool)
    ensures found == Listed(tp.depends, id)
  {
    var i := 0;
    while i + 1 < |tp.depends|
      invariant i <= |tp.depends|
      invariant forall n | 0 <= n < i :: tp.depends[n].id != id
    {
      if tp.depends[i].id == id {
        return true;
      }
      i := i + 1;
    }
    return false;
  }

  /** Whether some node but the last has the given identifier. */
  predicate Listed(depends: seq<Transaction>, id: word)
    reads depends
  {
    exists n :: 0 <= n < |depends| - 1 && depends[n].id == id
  }

  /** What an operation needs and leaves in memory: whose counts and lists change, and what is listed. */
  lemma TakeKeeps(b: Book, k: nat)
    requires Sound(b, multiset{}) && k < |b.live|
    ensures Distinct(b.live) && |b.entries| == |b.live| && Enabled(b, Take(k))
    ensures var c := Apply(b, Take(k));
      && Sound(c, multiset{}) && c.live == b.live == Referred(b, k).live
      && c.entries == Referred(b, k).entries && c.total == b.total && b.live[k] in c.owners
  {
    OperationIsSound(b, Take(k));
  }

  lemma ReleaseKeeps(b: Book, k: nat)
    requires Sound(b, multiset{}) && k < |b.live| && b.live[k] in b.owners
    ensures Distinct(b.live) && |b.entries| == |b.live| && b.entries[k].refcnt > 0 && Enabled(b, Release(k))
    ensures var c, d := Apply(b, Release(k)), Dropped(b, k);
      Sound(c, multiset{}) && c.live == d.live && c.entries == d.entries && c.total == b.total
  {
    OperationIsSound(b, Release(k));
  }

  lemma DependKeeps(b: Book, k: nat, j: nat)
    requires Sound(b, multiset{}) && k < |b.live| && j < |b.live| && b.live[j] in b.owners
    ensures Distinct(b.live) && |b.entries| == |b.live| && Enabled(b, Depend(k, b.live[j]))
    ensures var c, d := Apply(b, Depend(k, b.live[j])), Depending(b, k, b.live[j]);
      Sound(c, multiset{}) && c.live == d.live == b.live && c.entries == d.entries && c.total == b.total
  {
    OperationIsSound(b, Depend(k, b.live[j]));
  }

  lemma CreateAppends(b: Book, t: Transaction)
    requires Enabled(b, Create(t))
    ensures Apply(b, Create(t)).live == b.live + [t]
  {
  }

  lemma KeepKeeps(b: Book, v: Version)
    requires Sound(b, multiset{}) && v.creator in b.owners
    ensures Enabled(b, Keep(v))
    ensures var c := Apply(b, Keep(v));
      Sound(c, multiset{}) && c.live == b.live && c.entries == b.entries && c.total == b.total
  {
    OperationIsSound(b, Keep(v));
  }

  lemma DiscardKeeps(b: Book, i: nat)
    requires Sound(b, multiset{}) && i < |b.versions|
    ensures Enabled(b, Discard(i))
    ensures var c := Apply(b, Discard(i));
      && Sound(c, multiset{}) && c.live == b.live && c.entries == b.entries && c.total == b.total
      && b.versions[i].creator in c.owners
  {
    OperationIsSound(b, Discard(i));
  }

  /** Giving up a reference in memory: the last one takes the transaction off the list. */
  method DropInMemory(tp: Transaction, ghost first: Transaction, ghost b: Book, ghost k: nat)
    requires Ring([first] + b.live) && AllMatch(b.live, b.entries) && Distinct(b.live)
    requires k < |b.live| == |b.entries| && b.live[k] == tp && b.entries[k].refcnt > 0
    modifies tp`refcnt
    modifies ({first} + set t | t in b.live)`next, ({first} + set t | t in b.live)`prev
    ensures var c := Dropped(b, k); Ring([first] + c.live) && AllMatch(c.live, c.entries)
  {
    ghost var ring := [first] + b.live;
    hide Ring, AllMatch, Distinct;
    DecrementCount(tp, b, k);
    if tp.refcnt == 0 {
      MatchWithout(b.live, b.entries[k := b.entries[k].(refcnt := 0)], k);
      RingWithout(first, b.live, k);
      Unlink(tp, ring, k + 1);
    }
  }

  lemma RingWithout(first: Transaction, live: seq<Transaction>, k: nat)
    requires k < |live|
    ensures ([first] + live)[..k + 1] + ([first] + live)[k + 2..] == [first] + (live[..k] + live[k + 1..])
  {
  }

  method IncrementCount(tp: Transaction, ghost b: Book, ghost k: nat)
    requires AllMatch(b.live, b.entries) && Distinct(b.live) && k < |b.live| && b.live[k] == tp
    modifies tp`refcnt
    ensures AllMatch(Referred(b, k).live, Referred(b, k).entries) && tp.refcnt == old(tp.refcnt) + 1
  {
    assert Matches(tp, b.entries[k]);
    tp.refcnt := tp.refcnt + 1;
    forall i | 0 <= i < |b.live| && i != k ensures Matches(b.live[i], b.entries[i]) {
      assert old(Matches(b.live[i], b.entries[i])) && b.live[i] != tp;
    }
  }

  method DecrementCount(tp: Transaction, ghost b: Book, ghost k: nat)
    requires AllMatch(b.live, b.entries) && Distinct(b.live) && k < |b.live| && b.live[k] == tp
    requires b.entries[k].refcnt > 0
    modifies tp`refcnt
    ensures AllMatch(b.live, b.entries[k := b.entries[k].(refcnt := b.entries[k].refcnt - 1)])
    ensures tp.refcnt == b.entries[k].refcnt - 1
  {
    assert Matches(tp, b.entries[k]);
    tp.refcnt := tp.refcnt - 1;
    forall i | 0 <= i < |b.live| && i != k ensures Matches(b.live[i], b.entries[i]) {
      assert old(Matches(b.live[i], b.entries[i])) && b.live[i] != tp;
    }
  }

  method AppendNode(tp: Transaction, dtp: Transaction, ghost b: Book, ghost k: nat)
    requires AllMatch(b.live, b.entries) && Distinct(b.live) && k < |b.live| && b.live[k] == tp
    modifies tp`depends
    ensures AllMatch(Depending(b, k, dtp).live, Depending(b, k, dtp).entries)
    ensures tp.depends == old(tp.depends) + [dtp]
  {
    assert Matches(tp, b.entries[k]);
    tp.depends := tp.depends + [dtp];
    forall i | 0 <= i < |b.live| && i != k ensures Matches(b.live[i], b.entries[i]) {
      assert old(Matches(b.live[i], b.entries[i])) && b.live[i] != tp;
    }
  }

  lemma MatchWithout(live: seq<Transaction>, entries: seq<Entry>, k: nat)
    requires k < |live| && AllMatch(live, entries)
    ensures AllMatch(live[..k] + live[k + 1..], entries[..k] + entries[k + 1..])
  {
  }

  ghost predicate Matches(t: Transaction, e: Entry)
    reads t`id, t`refcnt, t`depends
  {
    t.id == e.serial % TWO32 && t.refcnt == e.refcnt && t.depends == e.depends
  }

  ghost predicate AllMatch(live: seq<Transaction>, entries: seq<Entry>)
    reads (set t | t in live)`id, (set t | t in live)`refcnt, (set t | t in live)`depends
  {
    |entries| == |live| && forall i | 0 <= i < |live| :: Matches(live[i], entries[i])
  }

  lemma MatchAlso(live: seq<Transaction>, entries: seq<Entry>, t: Transaction, e: Entry)
    requires AllMatch(live, entries) && Matches(t, e)
    ensures AllMatch(live + [t], entries + [e])
  {
  }

  lemma NextId(total: nat)
    ensures (total % TWO32 + 1) % TWO32 == (total + 1) % TWO32
  {
  }
}
