/**
 The life of `key` objects (src/protocol.hpp) as a memory of storage cells, one per object
 ever built. A cell stays behind, dead, when its object is destroyed.
 */
module KeyMemory {
  import opened Bytes

  datatype Cell = Cell(live: bool, content: bytes)

  type Memory = seq<Cell>

  datatype Op =
    | Construct
    | CopyConstruct(src: nat)
    | MoveConstruct(src: nat)
    | CopyAssign(dst: nat, src: nat)
    | MoveAssign(dst: nat, src: nat)
    | Kill(dst: nat)
    | Destroy(dst: nat)
    | Write(dst: nat, data: bytes)  // through data(), as the library calls do

  predicate Live(m: Memory, i: nat) {
    i < |m| && m[i].live
  }

  /** Only live objects can be operands. */
  predicate Enabled(n: nat, m: Memory, op: Op) {
    match op
    case Construct => true
    case CopyConstruct(src) => Live(m, src)
    case MoveConstruct(src) => Live(m, src)
    case CopyAssign(dst, src) => Live(m, dst) && Live(m, src)
    case MoveAssign(dst, src) => Live(m, dst) && Live(m, src)
    case Kill(dst) => Live(m, dst)
    case Destroy(dst) => Live(m, dst)
    case Write(dst, data) => Live(m, dst) && |data| == n
  }

  function Put(m: Memory, i: nat, content: bytes): Memory
    requires i < |m|
  {
    m[i := Cell(m[i].live, content)]
  }

  function Step(n: nat, m: Memory, op: Op): Memory
    requires Enabled(n, m, op)
  {
    match op
    case Construct => m + [Cell(true, Zeros(n))]
    case CopyConstruct(src) => m + [Cell(true, m[src].content)]
    case MoveConstruct(src) => Put(m, src, Zeros(n)) + [Cell(true, m[src].content)]
    case CopyAssign(dst, src) => if dst == src then m else Put(m, dst, m[src].content)
    case MoveAssign(dst, src) =>
      if dst == src then m else Put(Put(m, dst, m[src].content), src, Zeros(n))
    case Kill(dst) => Put(m, dst, Zeros(n))
    case Destroy(dst) => m[dst := Cell(false, Zeros(n))]
    case Write(dst, data) => Put(m, dst, data)
  }

  /** All cells but `dst` and `src` are as they were, and none is added. */
  predicate OnlyChanges(m: Memory, t: Memory, dst: nat, src: nat) {
    |t| == |m| && forall k :: 0 <= k < |m| && k != dst && k != src ==> t[k] == m[k]
  }

  /** Which cell holds what after each operation. */
  lemma StepContents(n: nat, m: Memory, op: Op)
    requires Enabled(n, m, op)
    ensures var t := Step(n, m, op);
      match op
      case Construct => t == m + [Cell(true, Zeros(n))]
      case CopyConstruct(src) => t == m + [m[src]]
      case MoveConstruct(src) =>
        && |t| == |m| + 1 && OnlyChanges(m, t[..|m|], src, src)
        && t[|m|] == m[src] && t[src] == Cell(true, Zeros(n))
      case CopyAssign(dst, src) => OnlyChanges(m, t, dst, dst) && t[dst] == m[src]
      case MoveAssign(dst, src) =>
        OnlyChanges(m, t, dst, src) && t[dst] == m[src] && (src != dst ==> t[src] == Cell(true, Zeros(n)))
      case Kill(dst) => OnlyChanges(m, t, dst, dst) && t[dst] == Cell(true, Zeros(n))
      case Destroy(dst) => OnlyChanges(m, t, dst, dst) && t[dst] == Cell(false, Zeros(n))
      case Write(dst, data) => OnlyChanges(m, t, dst, dst) && t[dst] == Cell(true, data)
  {
  }

  predicate Runnable(n: nat, m: Memory, ops: seq<Op>)
    decreases |ops|
  {
    ops != [] ==> Enabled(n, m, ops[0]) && Runnable(n, Step(n, m, ops[0]), ops[1..])
  }

  function Run(n: nat, m: Memory, ops: seq<Op>): Memory
    requires Runnable(n, m, ops)
    decreases |ops|
  {
    if ops == [] then m else Run(n, Step(n, m, ops[0]), ops[1..])
  }

  /** Storage that no live key owns is all zero. */
  predicate Safe(n: nat, m: Memory) {
    forall i :: 0 <= i < |m| ==> |m[i].content| == n && (!m[i].live ==> m[i].content == Zeros(n))
  }

  /** Every run from a safe memory (the empty one is safe) ends in a safe memory. */
  lemma {:induction false} RunSafe(n: nat, m: Memory, ops: seq<Op>)
    requires Safe(n, m) && Runnable(n, m, ops)
    ensures Safe(n, Run(n, m, ops))
    decreases |ops|
  {
    if ops == [] {
    } else {
      RunSafe(n, Step(n, m, ops[0]), ops[1..]);
    }
  }

  // ----- how many cells hold a secret

  function Holds(c: Cell, secret: bytes): nat {
    if c.content == secret then 1 else 0
  }

  function Copies(m: Memory, secret: bytes): nat {
    if m == [] then 0 else Holds(m[0], secret) + Copies(m[1..], secret)
  }

  lemma {:induction false} CopiesAppend(m: Memory, c: Cell, secret: bytes)
    ensures Copies(m + [c], secret) == Copies(m, secret) + Holds(c, secret)
  {
    if m == [] {
      assert m + [c] == [c];
      assert Copies([c], secret) == Holds(c, secret) + Copies([c][1..], secret);
    } else {
      CopiesAppend(m[1..], c, secret);
      assert (m + [c])[1..] == m[1..] + [c];
    }
  }

  lemma {:induction false} CopiesUpdate(m: Memory, i: nat, c: Cell, secret: bytes)
    requires i < |m|
    ensures Copies(m[i := c], secret) == Copies(m, secret) - Holds(m[i], secret) + Holds(c, secret)
  {
    if i > 0 {
      CopiesUpdate(m[1..], i - 1, c, secret);
      assert m[i := c][1..] == m[1..][i - 1 := c];
    } else {
      assert m[i := c][1..] == m[1..];
    }
  }

  /** Copies of `secret` that the step itself makes: by copying it or by writing it. */
  function Made(m: Memory, op: Op, secret: bytes): nat {
    match op
    case CopyConstruct(src) => if src < |m| then Holds(m[src], secret) else 0
    case CopyAssign(dst, src) => if src < |m| && dst != src then Holds(m[src], secret) else 0
    case Write(dst, data) => if data == secret then 1 else 0
    case _ => 0
  }

  /** Copies of `secret` that the step erases: what it overwrites without moving it on. */
  function Erased(m: Memory, op: Op, secret: bytes): nat {
    match op
    case CopyAssign(dst, src) => if dst < |m| && dst != src then Holds(m[dst], secret) else 0
    case MoveAssign(dst, src) => if dst < |m| && dst != src then Holds(m[dst], secret) else 0
    case Kill(dst) => if dst < |m| then Holds(m[dst], secret) else 0
    case Destroy(dst) => if dst < |m| then Holds(m[dst], secret) else 0
    case Write(dst, _) => if dst < |m| then Holds(m[dst], secret) else 0
    case _ => 0
  }

  /** The conservation law of one step, for every secret other than all zeros. */
  lemma StepConserves(n: nat, m: Memory, op: Op, secret: bytes)
    requires Enabled(n, m, op) && secret != Zeros(n)
    ensures Copies(Step(n, m, op), secret) + Erased(m, op, secret) == Copies(m, secret) + Made(m, op, secret)
  {
    var zero := Cell(true, Zeros(n));
    match op {
      case Construct => CopiesAppend(m, zero, secret);
      case CopyConstruct(src) => CopiesAppend(m, Cell(true, m[src].content), secret);
      case MoveConstruct(src) =>
        CopiesUpdate(m, src, zero, secret);
        CopiesAppend(Put(m, src, Zeros(n)), Cell(true, m[src].content), secret);
      case CopyAssign(dst, src) =>
        CopiesUpdate(m, dst, Cell(true, m[src].content), secret);
      case MoveAssign(dst, src) =>
        if dst != src {
          CopiesUpdate(m, dst, Cell(true, m[src].content), secret);
          CopiesUpdate(Put(m, dst, m[src].content), src, zero, secret);
        }
      case Kill(dst) => CopiesUpdate(m, dst, zero, secret);
      case Destroy(dst) => CopiesUpdate(m, dst, Cell(false, Zeros(n)), secret);
      case Write(dst, data) => CopiesUpdate(m, dst, Cell(true, data), secret);
    }
  }

  /**
   A move keeps the number of copies of the moved secret exactly when the target does not
   hold the same secret already (a self-move changes nothing at all).
   */
  lemma MoveKeepsCopies(n: nat, m: Memory, dst: nat, src: nat)
    requires Live(m, dst) && Live(m, src) && m[src].content != Zeros(n)
    ensures var secret := m[src].content;
      Copies(Step(n, m, MoveAssign(dst, src)), secret) == Copies(m, secret)
      <==> dst == src || m[dst].content != secret
    ensures Copies(Step(n, m, MoveConstruct(src)), m[src].content) == Copies(m, m[src].content)
    ensures Step(n, m, MoveAssign(src, src)) == m
  {
    StepConserves(n, m, MoveAssign(dst, src), m[src].content);
    StepConserves(n, m, MoveConstruct(src), m[src].content);
  }

  /** Copies made, and erased, over a whole run. */
  function TotalMade(n: nat, m: Memory, ops: seq<Op>, secret: bytes): nat
    requires Runnable(n, m, ops)
    decreases |ops|
  {
    if ops == [] then 0
    else Made(m, ops[0], secret) + TotalMade(n, Step(n, m, ops[0]), ops[1..], secret)
  }

  function TotalErased(n: nat, m: Memory, ops: seq<Op>, secret: bytes): nat
    requires Runnable(n, m, ops)
    decreases |ops|
  {
    if ops == [] then 0
    else Erased(m, ops[0], secret) + TotalErased(n, Step(n, m, ops[0]), ops[1..], secret)
  }

  /** Over any run: copies at the end = copies at the start + made - erased. */
  lemma {:induction false} RunConserves(n: nat, m: Memory, ops: seq<Op>, secret: bytes)
    requires Runnable(n, m, ops) && secret != Zeros(n)
    ensures Copies(Run(n, m, ops), secret) + TotalErased(n, m, ops, secret)
         == Copies(m, secret) + TotalMade(n, m, ops, secret)
    decreases |ops|
  {
    if ops == [] {
    } else {
      StepConserves(n, m, ops[0], secret);
      RunConserves(n, Step(n, m, ops[0]), ops[1..], secret);
    }
  }

  /** Once every key of a run is destroyed, no secret is left anywhere in memory. */
  lemma {:induction false} NothingLeft(n: nat, m: Memory, secret: bytes)
    requires Safe(n, m) && secret != Zeros(n)
    requires forall i :: 0 <= i < |m| ==> !m[i].live
    ensures Copies(m, secret) == 0
  {
    if m == [] {
    } else {
      NothingLeft(n, m[1..], secret);
    }
  }

  // ----- the class itself

  class Key {
    const storage: array<byte>

    constructor Default(n: nat)
      ensures fresh(storage) && storage.Length == n && storage[..] == Zeros(n)
    {
      storage := new byte[n](_ => 0);
    }

    constructor Copy(other: Key)
      ensures fresh(storage) && storage[..] == other.storage[..]
    {
      var from := other.storage;
      storage := new byte[from.Length](i requires 0 <= i < from.Length reads from => from[i]);
    }

    /** Takes the bytes over and wipes the source. */
    constructor Move(other: Key)
      modifies other.storage
      ensures fresh(storage) && storage[..] == old(other.storage[..])
      ensures other.storage[..] == Zeros(other.storage.Length)
    {
      var from := other.storage;
      storage := new byte[from.Length](i requires 0 <= i < from.Length reads from => from[i]);
      new;
      other.Wipe();
    }

    /** `kill`, and the destructor. */
    method Wipe()
      modifies storage
      ensures storage[..] == Zeros(storage.Length)
    {
      for i := 0 to storage.Length
        invariant forall j :: 0 <= j < i ==> storage[j] == 0
      {
        storage[i] := 0;
      }
    }

    method Fill(data: bytes)
      requires |data| == storage.Length
      modifies storage
      ensures storage[..] == data
    {
      for i := 0 to storage.Length
        invariant storage[..i] == data[..i]
      {
        storage[i] := data[i];
      }
    }

    /** Assignment by copy; `other` may be this very object. */
    method AssignCopy(other: Key)
      requires other.storage.Length == storage.Length
      requires other != this ==> other.storage != storage
      modifies storage
      ensures storage[..] == old(other.storage[..])
    {
      if this != other {
        Wipe();
        Fill(other.storage[..]);
      }
    }

    /** Assignment by move; a self-move must not wipe the only copy. */
    method AssignMove(other: Key)
      requires other.storage.Length == storage.Length
      requires other != this ==> other.storage != storage
      modifies storage, other.storage
      ensures storage[..] == old(other.storage[..])
      ensures other != this ==> other.storage[..] == Zeros(storage.Length)
    {
      if this != other {
        Wipe();
        Fill(other.storage[..]);
        other.Wipe();
      }
    }
  }

  /** Every key of one size ever built, with the objects still alive marked. */
  class Arena {
    const n: nat
    var keys: seq<Key>
    var alive: seq<bool>

    ghost function Storage(): set<array<byte>>
      reads this
    {
      set k | k in keys :: k.storage
    }

    ghost predicate Valid()
      reads this
    {
      && |alive| == |keys|
      && (forall i :: 0 <= i < |keys| ==> keys[i].storage.Length == n)
      && (forall i, j :: 0 <= i < j < |keys| ==> keys[i] != keys[j] && keys[i].storage != keys[j].storage)
    }

    ghost function View(): (m: Memory)
      requires Valid()
      reads this, Storage()
      ensures |m| == |keys|
    {
      seq(|keys|, i requires 0 <= i < |keys| && Valid() reads this, Storage() =>
        Cell(alive[i], keys[i].storage[..]))
    }

    constructor (n: nat)
      ensures Valid() && View() == [] && this.n == n
    {
      this.n := n;
      keys, alive := [], [];
    }

    /** The three constructors: each adds a live object at the end. */
    method Build(op: Op)
      requires op.Construct? || op.CopyConstruct? || op.MoveConstruct?
      requires Valid() && Enabled(n, View(), op)
      modifies this, Storage()
      ensures fresh(Storage() - old(Storage()))
      ensures Valid() && View() == Step(n, old(View()), op)
    {
      var k: Key;
      if op.Construct? {
        k := new Key.Default(n);
      } else if op.CopyConstruct? {
        k := new Key.Copy(keys[op.src]);
      } else {
        k := new Key.Move(keys[op.src]);
      }
      Append(k);
    }

    /** Takes a new object of its own storage into the arena. */
    method Append(k: Key)
      requires Valid() && k.storage.Length == n && k !in keys && k.storage !in Storage()
      modifies this
      ensures Valid() && keys == old(keys) + [k]
      ensures Storage() == old(Storage()) + {k.storage}
      ensures View() == old(View()) + [Cell(true, k.storage[..])]
    {
      keys, alive := keys + [k], alive + [true];
    }

    method Assign(op: Op)
      requires op.CopyAssign? || op.MoveAssign?
      requires Valid() && Enabled(n, View(), op)
      modifies Storage()
      ensures Valid() && View() == Step(n, old(View()), op)
    {
      if op.CopyAssign? {
        keys[op.dst].AssignCopy(keys[op.src]);
      } else {
        keys[op.dst].AssignMove(keys[op.src]);
      }
    }

    /** The object code of every operation does exactly what `Step` says. */
    method Exec(op: Op)
      requires Valid() && Enabled(n, View(), op)
      modifies this, Storage()
      ensures fresh(Storage() - old(Storage()))
      ensures Valid() && View() == Step(n, old(View()), op)
    {
      if op.Construct? || op.CopyConstruct? || op.MoveConstruct? {
        Build(op);
      } else if op.CopyAssign? || op.MoveAssign? {
        Assign(op);
      } else if op.Kill? {
        keys[op.dst].Wipe();
      } else if op.Destroy? {
        keys[op.dst].Wipe();
        alive := alive[op.dst := false];
      } else {
        keys[op.dst].Fill(op.data);
      }
    }

    /** A whole run of the objects is a run of the memory. */
    method ExecAll(ops: seq<Op>)
      requires Valid() && Runnable(n, View(), ops)
      modifies this, Storage()
      ensures fresh(Storage() - old(Storage()))
      ensures Valid() && View() == Run(n, old(View()), ops)
      decreases |ops|
    {
      if ops != [] {
        Exec(ops[0]);
        ExecAll(ops[1..]);
      }
    }
  }
}
