/**
 The byte-transform programs of the custom decryptor stages: their effect on a
 byte, the lookup table made from it, and the instruction parser.
 */
module Bytecode {
  import opened Wrappers
  import Words

  datatype Op =
    | Add(n: bv8) | Sub(n: bv8) | XorWith(n: bv8)
    | Rol(count: nat) | Ror(count: nat)
    | Inc | Dec

  // ----- Effect on a byte -----

  function RotateLeft1(x: bv8): bv8 {
    (x << 1) | (x >> 7)
  }

  function RotateRight1(x: bv8): bv8 {
    (x >> 1) | (x << 7)
  }

  function RotateLeft(x: bv8, n: nat): bv8
    decreases n
  {
    if n == 0 then x else RotateLeft1(RotateLeft(x, n - 1))
  }

  function RotateRight(x: bv8, n: nat): bv8
    decreases n
  {
    if n == 0 then x else RotateRight(RotateRight1(x), n - 1)
  }

  function Step(op: Op, x: bv8): bv8 {
    match op
    case Add(n) => Plus(x, n)
    case Sub(n) => Minus(x, n)
    case XorWith(n) => Flip(x, n)
    case Rol(count) => RotateLeft(x, count % 8)
    case Ror(count) => RotateRight(x, count % 8)
    case Inc => Plus(x, 1)
    case Dec => Minus(x, 1)
  }

  function Plus(a: bv8, b: bv8): bv8 {
    a + b
  }

  function Minus(a: bv8, b: bv8): bv8 {
    a - b
  }

  function Flip(a: bv8, b: bv8): bv8 {
    a ^ b
  }

  /** Sums and differences are those of numbers, cut to a byte. */
  lemma SumsAre(x: bv8, n: bv8)
    ensures Step(Add(n), x) as bv16 == (x as bv16 + n as bv16) % 256
    ensures Step(Sub(n), x) as bv16 == (x as bv16 + 256 - n as bv16) % 256
    ensures Step(Inc, x) as bv16 == (x as bv16 + 1) % 256
    ensures Step(Dec, x) as bv16 == (x as bv16 + 255) % 256
  {
  }

  /** A rotation by one doubles or halves the number, and what falls off comes back at the other end. */
  lemma RotationByOne(x: bv8)
    ensures Step(Rol(1), x) as bv16 == 2 * (x as bv16) % 256 + x as bv16 / 128
    ensures Step(Ror(1), x) as bv16 == x as bv16 / 2 + 128 * (x as bv16 % 2)
  {
    hide RotateLeft1, RotateRight1;
    TurnsOnce(x);
    TurnedNumbers(x);
  }

  lemma TurnsOnce(x: bv8)
    ensures RotateLeft(x, 1) == RotateLeft1(x) && RotateRight(x, 1) == RotateRight1(x)
  {
    hide RotateLeft1, RotateRight1;
    assert RotateLeft(x, 0) == x;
  }

  lemma TurnedNumbers(x: bv8)
    ensures RotateLeft1(x) as bv16 == 2 * (x as bv16) % 256 + x as bv16 / 128
    ensures RotateRight1(x) as bv16 == x as bv16 / 2 + 128 * (x as bv16 % 2)
  {
  }

  /** A rotation by any count is that many rotations by one; eight of them count as none. */
  lemma RotationsAre(x: bv8, count: nat)
    ensures Step(Rol(count), x) == if count % 8 == 0 then x else Step(Rol(1), Step(Rol(count % 8 - 1), x))
    ensures Step(Ror(count), x) == if count % 8 == 0 then x else Step(Ror(count % 8 - 1), Step(Ror(1), x))
  {
    hide RotateLeft1, RotateRight1;
    if count % 8 > 0 {
      TurnsOnce(x);
      TurnsOnce(RotateLeft(x, count % 8 - 1));
    }
  }

  /** The effect of a program: its operations in order. */
  function Effect(ops: seq<Op>, x: bv8): bv8 {
    if ops == [] then x else Effect(ops[1..], Step(ops[0], x))
  }

  method Apply(ops: seq<Op>, x0: bv8) returns (x: bv8)
    ensures x == Effect(ops, x0)
  {
    hide Step;
    x := x0;
    for i := 0 to |ops|
      invariant Effect(ops[i..], x) == Effect(ops, x0)
    {
      assert ops[i..][1..] == ops[i + 1..];
      x := Step(ops[i], x);
    }
  }

  function Undo(op: Op): Op {
    match op
    case Add(n) => Sub(n)
    case Sub(n) => Add(n)
    case XorWith(n) => XorWith(n)
    case Rol(count) => Ror(count)
    case Ror(count) => Rol(count)
    case Inc => Dec
    case Dec => Inc
  }

  /** The undoing operations in reverse order. */
  function Inverse(ops: seq<Op>): seq<Op> {
    if ops == [] then [] else Inverse(ops[1..]) + [Undo(ops[0])]
  }

  lemma RotationInverts(x: bv8)
    ensures RotateLeft1(RotateRight1(x)) == x && RotateRight1(RotateLeft1(x)) == x
  {
  }

  lemma {:induction false} RotationsInvert(x: bv8, n: nat)
    ensures RotateLeft(RotateRight(x, n), n) == x
    ensures RotateRight(RotateLeft(x, n), n) == x
    decreases n
  {
    hide RotateLeft1, RotateRight1;
    if n > 0 {
      RotationsInvert(RotateRight1(x), n - 1);
      RotationInverts(x);
      RotationsInvert(x, n - 1);
      RotationInverts(RotateLeft(x, n - 1));
    }
  }

  lemma WrapFacts(x: bv8, n: bv8)
    ensures Minus(Plus(x, n), n) == x && Plus(Minus(x, n), n) == x && Flip(Flip(x, n), n) == x
  {
  }

  lemma StepInverts(op: Op, x: bv8)
    ensures Step(Undo(op), Step(op, x)) == x
  {
    hide RotateLeft, RotateRight, Plus, Minus, Flip;
    match op
    case Add(n) => WrapFacts(x, n);
    case Sub(n) => WrapFacts(x, n);
    case XorWith(n) => WrapFacts(x, n);
    case Rol(count) => RotationsInvert(x, count % 8);
    case Ror(count) => RotationsInvert(x, count % 8);
    case Inc => WrapFacts(x, 1);
    case Dec => WrapFacts(x, 1);
  }

  lemma {:induction false} EffectAppend(a: seq<Op>, b: seq<Op>, x: bv8)
    ensures Effect(a + b, x) == Effect(b, Effect(a, x))
    decreases |a|
  {
    hide Step;
    if a == [] {
      assert a + b == b;
    } else {
      assert (a + b)[1..] == a[1..] + b;
      EffectAppend(a[1..], b, Step(a[0], x));
    }
  }

  /** Running the inverse after a program gives every byte back. */
  lemma {:induction false} InverseUndoes(ops: seq<Op>, x: bv8)
    ensures Effect(Inverse(ops), Effect(ops, x)) == x
  {
    hide Step, Undo;
    if ops != [] {
      var y := Step(ops[0], x);
      InverseUndoes(ops[1..], y);
      EffectAppend(Inverse(ops[1..]), [Undo(ops[0])], Effect(ops, x));
      StepInverts(ops[0], x);
      assert Effect([Undo(ops[0])], y) == Step(Undo(ops[0]), y);
    }
  }

  lemma UndoUndo(op: Op)
    ensures Undo(Undo(op)) == op
  {
  }

  lemma {:induction false} InverseAppend(a: seq<Op>, op: Op)
    ensures Inverse(a + [op]) == [Undo(op)] + Inverse(a)
    decreases |a|
  {
    hide Undo;
    if a == [] {
      assert a + [op] == [op] && [op][1..] == [];
    } else {
      assert (a + [op])[1..] == a[1..] + [op];
      InverseAppend(a[1..], op);
    }
  }

  lemma {:induction false} InverseTwice(ops: seq<Op>)
    ensures Inverse(Inverse(ops)) == ops
  {
    hide Undo;
    if ops != [] {
      InverseTwice(ops[1..]);
      InverseAppend(Inverse(ops[1..]), Undo(ops[0]));
      UndoUndo(ops[0]);
    }
  }

  /** Every program denotes a permutation of the bytes, whose inverse is the program of undoing operations. */
  lemma EffectIsPermutation(ops: seq<Op>, x: bv8, y: bv8)
    ensures Effect(Inverse(ops), Effect(ops, x)) == x
    ensures Effect(ops, Effect(Inverse(ops), y)) == y
    ensures Effect(ops, x) == Effect(ops, y) ==> x == y
  {
    hide Effect, Inverse;
    InverseUndoes(ops, x);
    InverseUndoes(ops, y);
    InverseUndoes(Inverse(ops), y);
    InverseTwice(ops);
  }

  // ----- The lookup table -----

  class OpsLut {
    const ops: seq<Op>
    var t: array<bv8>

    ghost predicate Valid()
      reads this, t
    {
      t.Length == 0x100 && forall x: bv8 :: t[x as nat] == Effect(ops, x)
    }

    constructor (ops: seq<Op>)
      ensures Valid() && fresh(t) && this.ops == ops
    {
      this.ops := ops;
      var table := new bv8[0x100];
      for i := 0 to 0x100
        invariant forall x: bv8 :: x as nat < i ==> table[x as nat] == Effect(ops, x)
      {
        var y := Apply(ops, i as bv8);
        table[i] := y;
      }
      t := table;
    }

    /** Translate the `n` bytes at `off`; nothing else changes. */
    method MapRegion(d: array<bv8>, off: nat, n: nat)
      requires Valid() && d != t && off + n <= d.Length
      modifies d
      ensures d[..] == Mapped(ops, old(d[..]), off, n)
    {
      hide Effect;
      ghost var before := d[..];
      for i := 0 to n
        invariant Valid()
        invariant forall j :: 0 <= j < d.Length ==>
                  d[j] == if off <= j < off + i then Effect(ops, before[j]) else before[j]
      {
        d[off + i] := t[d[off + i] as nat];
      }
    }
  }

  /** The program applied to each byte of a region. */
  function Mapped(ops: seq<Op>, d: seq<bv8>, off: nat, n: nat): (r: seq<bv8>)
    requires off + n <= |d|
    ensures |r| == |d|
  {
    seq(|d|, i requires 0 <= i < |d| => if off <= i < off + n then Effect(ops, d[i]) else d[i])
  }

  /** Mapping a region with the inverse program undoes the mapping. */
  lemma MappedInverts(ops: seq<Op>, d: seq<bv8>, off: nat, n: nat)
    requires off + n <= |d|
    ensures Mapped(Inverse(ops), Mapped(ops, d, off, n), off, n) == d
  {
    hide Effect, Inverse;
    var r := Mapped(Inverse(ops), Mapped(ops, d, off, n), off, n);
    forall i | 0 <= i < |d|
      ensures r[i] == d[i]
    {
      InverseUndoes(ops, d[i]);
    }
  }

  // ----- The instruction parser -----

  const ADD: bv8 := 4
  const SUB: bv8 := 44
  const XOR: bv8 := 52
  const NOP: bv8 := 144
  const ROTATE: bv8 := 192
  const STEP: bv8 := 254
  const RETURN: bv8 := 195

  /** The register field of an operand byte that names the accumulator; other operands are refused. */
  function Register(operand: bv8): Option<bv8> {
    if (operand >> 6) & 3 != 3 || operand & 7 != 0 then None else Some((operand >> 3) & 7)
  }

  /** One instruction: how many bytes it takes and what it does; a no-operation does nothing. */
  datatype Instruction = Instruction(size: nat, op: Option<Op>)

  /** The instruction at `pos`, if it is complete and known; a return is not an instruction. */
  function Instruct(data: seq<bv8>, pos: nat): Option<Instruction>
    requires pos < |data|
  {
    var b := data[pos];
    if b == NOP then Some(Instruction(1, None))
    else if pos + 1 >= |data| then None
    else if b == ADD then Some(Instruction(2, Some(Add(data[pos + 1]))))
    else if b == SUB then Some(Instruction(2, Some(Sub(data[pos + 1]))))
    else if b == XOR then Some(Instruction(2, Some(XorWith(data[pos + 1]))))
    else if b == ROTATE then
      if Register(data[pos + 1]).None? || pos + 2 >= |data| then None
      else if Register(data[pos + 1]).value == 0 then Some(Instruction(3, Some(Rol(data[pos + 2] as nat))))
      else if Register(data[pos + 1]).value == 1 then Some(Instruction(3, Some(Ror(data[pos + 2] as nat))))
      else None
    else if b == STEP then
      if Register(data[pos + 1]).None? then None
      else if Register(data[pos + 1]).value == 0 then Some(Instruction(2, Some(Inc)))
      else if Register(data[pos + 1]).value == 1 then Some(Instruction(2, Some(Dec)))
      else None
    else None
  }

  function OpsOf(i: Instruction): seq<Op> {
    if i.op.Some? then [i.op.value] else []
  }

  lemma InstructionFits(data: seq<bv8>, pos: nat)
    requires pos < |data| && Instruct(data, pos).Some?
    ensures 1 <= Instruct(data, pos).value.size && pos + Instruct(data, pos).value.size <= |data|
  {
    hide Register;
  }

  /** The operations from `pos` up to the return. */
  function Program(data: seq<bv8>, pos: nat): Option<seq<Op>>
    decreases |data| - pos
  {
    if pos >= |data| then None
    else if data[pos] == RETURN then Some([])
    else
      var i := Instruct(data, pos);
      if i.None? then None
      else
        InstructionFits(data, pos);
        var rest := Program(data, pos + i.value.size);
        if rest.None? then None else Some(OpsOf(i.value) + rest.value)
  }

  /** One turn of the parser's loop. */
  lemma ProgramStep(ops: seq<Op>, data: seq<bv8>, pos: nat)
    requires pos < |data| && data[pos] != RETURN
    ensures Instruct(data, pos).None? ==> Program(data, pos) == None
    ensures Instruct(data, pos).Some? ==>
              Prepended(ops, Program(data, pos))
                == Prepended(ops + OpsOf(Instruct(data, pos).value),
                             Program(data, pos + Instruct(data, pos).value.size))
  {
    hide Instruct;
    var i := Instruct(data, pos);
    if i.Some? {
      InstructionFits(data, pos);
      var rest := Program(data, pos + i.value.size);
      if rest.Some? {
        assert ops + (OpsOf(i.value) + rest.value) == (ops + OpsOf(i.value)) + rest.value;
      }
    }
  }

  lemma ProgramEnds(ops: seq<Op>, data: seq<bv8>, pos: nat)
    requires pos >= |data| || data[pos] == RETURN
    ensures Prepended(ops, Program(data, pos)) == if pos >= |data| then None else Some(ops)
  {
    assert ops + [] == ops;
  }

  method Generate(data: seq<bv8>, offset: nat) returns (r: Option<seq<Op>>)
    ensures r == Program(data, offset)
  {
    hide Instruct, Program, OpsOf;
    var ops: seq<Op> := [];
    var pos := offset;
    NothingPrepended(Program(data, offset));
    while pos < |data| && data[pos] != RETURN
      invariant Program(data, offset) == Prepended(ops, Program(data, pos))
      decreases |data| - pos
    {
      var i := Instruct(data, pos);
      ProgramStep(ops, data, pos);
      if i.None? {
        return None;
      }
      InstructionFits(data, pos);
      ops := ops + OpsOf(i.value);
      pos := pos + i.value.size;
    }
    ProgramEnds(ops, data, pos);
    if pos >= |data| {
      return None;
    }
    r := Some(ops);
  }

  function Prepended(ops: seq<Op>, rest: Option<seq<Op>>): Option<seq<Op>> {
    if rest.None? then None else Some(ops + rest.value)
  }

  lemma NothingPrepended(rest: Option<seq<Op>>)
    ensures Prepended([], rest) == rest
  {
    if rest.Some? {
      assert [] + rest.value == rest.value;
    }
  }

  // ----- The printer -----

  datatype Item = Nop | Run(op: Op)

  predicate Printable(item: Item) {
    item.Run? && (item.op.Rol? || item.op.Ror?) ==> item.op.count < 0x100
  }

  function PrintItem(item: Item): (b: seq<bv8>)
    requires Printable(item)
    ensures |b| > 0
  {
    match item
    case Nop => [NOP]
    case Run(Add(n)) => [ADD, n]
    case Run(Sub(n)) => [SUB, n]
    case Run(XorWith(n)) => [XOR, n]
    case Run(Rol(count)) => [ROTATE, 0xC0, count as bv8]
    case Run(Ror(count)) => [ROTATE, 0xC8, count as bv8]
    case Run(Inc) => [STEP, 0xC0]
    case Run(Dec) => [STEP, 0xC8]
  }

  predicate AllPrintable(items: seq<Item>) {
    forall i :: 0 <= i < |items| ==> Printable(items[i])
  }

  function Print(items: seq<Item>): seq<bv8>
    requires AllPrintable(items)
  {
    if items == [] then [] else PrintItem(items[0]) + Print(items[1..])
  }

  /** The bytes at `pos` are the print of `items`, then a return. */
  predicate PrintedAt(items: seq<Item>, data: seq<bv8>, pos: nat) {
    && AllPrintable(items) && pos + |Print(items)| < |data|
    && data[pos..pos + |Print(items)|] == Print(items) && data[pos + |Print(items)|] == RETURN
  }

  function Operations(items: seq<Item>): seq<Op> {
    if items == [] then [] else (if items[0].Run? then [items[0].op] else []) + Operations(items[1..])
  }

  lemma OperandBytes(operand: bv8)
    ensures Register(operand) == Some(0) <==> operand == 0xC0
    ensures Register(operand) == Some(1) <==> operand == 0xC8
  {
  }

  lemma Cuts(data: seq<bv8>, pos: nat)
    ensures pos + 1 <= |data| ==> data[pos..pos + 1] == [data[pos]]
    ensures pos + 2 <= |data| ==> data[pos..pos + 2] == [data[pos], data[pos + 1]]
    ensures pos + 3 <= |data| ==> data[pos..pos + 3] == [data[pos], data[pos + 1], data[pos + 2]]
  {
  }

  /** Reading a printed item gives it back. */
  lemma ItemReads(item: Item, data: seq<bv8>, pos: nat)
    requires Printable(item) && pos + |PrintItem(item)| <= |data|
    requires data[pos..pos + |PrintItem(item)|] == PrintItem(item)
    ensures data[pos] != RETURN
    ensures Instruct(data, pos) == Some(Instruction(|PrintItem(item)|, if item.Run? then Some(item.op) else None))
  {
    hide Instruct, Register;
    var b := PrintItem(item);
    Cuts(data, pos);
    Firsts(data[pos..pos + |b|], b);
    if |b| == 2 {
      PairReads(item, data, pos);
    } else if |b| == 3 {
      RotationReads(item, data, pos);
    } else {
      NopReads(data, pos);
    }
  }

  lemma Firsts(a: seq<bv8>, b: seq<bv8>)
    requires a == b
    ensures |a| == |b| && forall i :: 0 <= i < |a| ==> a[i] == b[i]
  {
  }

  lemma NopReads(data: seq<bv8>, pos: nat)
    requires pos < |data| && data[pos] == NOP
    ensures Instruct(data, pos) == Some(Instruction(1, None))
  {
  }

  lemma PairReads(item: Item, data: seq<bv8>, pos: nat)
    requires Printable(item) && |PrintItem(item)| == 2 && pos + 2 <= |data|
    requires PrintItem(item) == [data[pos], data[pos + 1]]
    ensures Instruct(data, pos) == Some(Instruction(2, Some(item.op)))
  {
    hide Register;
    OperandBytes(data[pos + 1]);
  }

  lemma RotationReads(item: Item, data: seq<bv8>, pos: nat)
    requires Printable(item) && |PrintItem(item)| == 3 && pos + 3 <= |data|
    requires PrintItem(item) == [data[pos], data[pos + 1], data[pos + 2]]
    ensures Instruct(data, pos) == Some(Instruction(3, Some(item.op)))
  {
    hide Register;
    OperandBytes(data[pos + 1]);
    Words.NatOfByte(item.op.count);
  }

  /** Parsing a printed program, with any no-operations in it and anything around it, gives its operations back. */
  lemma {:induction false} PrintedParses(items: seq<Item>, data: seq<bv8>, pos: nat)
    requires PrintedAt(items, data, pos)
    ensures Program(data, pos) == Some(Operations(items))
    decreases |items|
  {
    hide Instruct, PrintItem;
    if items != [] {
      var b := PrintItem(items[0]);
      var all := Print(items);
      assert data[pos..pos + |b|] == all[..|b|] == b;
      ItemReads(items[0], data, pos);
      assert data[pos + |b|..pos + |all|] == all[|b|..] == Print(items[1..]);
      PrintedParses(items[1..], data, pos + |b|);
    }
  }

  function ItemOf(i: Instruction): Item {
    if i.op.Some? then Run(i.op.value) else Nop
  }

  /** The items of a program that parses. */
  function Listing(data: seq<bv8>, pos: nat): seq<Item>
    requires Program(data, pos).Some?
    decreases |data| - pos
  {
    if data[pos] == RETURN then []
    else
      var i := Instruct(data, pos).value;
      InstructionFits(data, pos);
      [ItemOf(i)] + Listing(data, pos + i.size)
  }

  /** Every instruction read is the print of its item. */
  lemma ReadIsPrinted(data: seq<bv8>, pos: nat)
    requires pos < |data| && Instruct(data, pos).Some?
    ensures var i := Instruct(data, pos).value;
            && Printable(ItemOf(i)) && |PrintItem(ItemOf(i))| == i.size && pos + i.size <= |data|
            && data[pos..pos + i.size] == PrintItem(ItemOf(i))
  {
    hide Register;
    InstructionFits(data, pos);
    Cuts(data, pos);
    if data[pos] != NOP {
      OperandBytes(data[pos + 1]);
      if data[pos] == ROTATE {
        Words.ByteOfNat(data[pos + 2]);
      }
    }
  }

  lemma PrintCons(item: Item, rest: seq<Item>)
    requires Printable(item) && AllPrintable(rest)
    ensures AllPrintable([item] + rest) && Print([item] + rest) == PrintItem(item) + Print(rest)
  {
    hide Printable, PrintItem;
    assert ([item] + rest)[1..] == rest;
  }

  lemma OperationsCons(item: Item, rest: seq<Item>)
    ensures Operations([item] + rest) == (if item.Run? then [item.op] else []) + Operations(rest)
  {
    assert ([item] + rest)[1..] == rest;
  }

  lemma SliceJoin(data: seq<bv8>, pos: nat, a: seq<bv8>, b: seq<bv8>)
    requires pos + |a| + |b| <= |data| && data[pos..pos + |a|] == a && data[pos + |a|..pos + |a| + |b|] == b
    ensures data[pos..pos + |a + b|] == a + b
  {
  }

  lemma PrintedCons(item: Item, rest: seq<Item>, data: seq<bv8>, pos: nat)
    requires Printable(item) && pos + |PrintItem(item)| <= |data|
    requires data[pos..pos + |PrintItem(item)|] == PrintItem(item) && PrintedAt(rest, data, pos + |PrintItem(item)|)
    ensures PrintedAt([item] + rest, data, pos)
  {
    hide Printable, PrintItem, Print, AllPrintable;
    PrintCons(item, rest);
    SliceJoin(data, pos, PrintItem(item), Print(rest));
  }

  lemma ListingStep(data: seq<bv8>, pos: nat)
    requires Program(data, pos).Some? && data[pos] != RETURN
    ensures pos < |data| && Instruct(data, pos).Some? && Program(data, pos + Instruct(data, pos).value.size).Some?
    ensures Listing(data, pos)
            == [ItemOf(Instruct(data, pos).value)] + Listing(data, pos + Instruct(data, pos).value.size)
    ensures Program(data, pos).value
            == OpsOf(Instruct(data, pos).value) + Program(data, pos + Instruct(data, pos).value.size).value
  {
    hide Instruct;
  }

  /** The parser accepts nothing but printed programs followed by a return. */
  lemma {:induction false} ParsedIsPrinted(data: seq<bv8>, pos: nat)
    requires Program(data, pos).Some?
    ensures PrintedAt(Listing(data, pos), data, pos) && Operations(Listing(data, pos)) == Program(data, pos).value
    decreases |data| - pos
  {
    hide Instruct, PrintItem, Printable, PrintedAt, Program, Operations, Listing;
    InFile(data, pos);
    if data[pos] == RETURN {
      NothingPrinted(data, pos);
    } else {
      ListingStep(data, pos);
      var i := Instruct(data, pos).value;
      InstructionFits(data, pos);
      ReadIsPrinted(data, pos);
      ParsedIsPrinted(data, pos + i.size);
      PrintedCons(ItemOf(i), Listing(data, pos + i.size), data, pos);
      OperationsCons(ItemOf(i), Listing(data, pos + i.size));
    }
  }

  lemma InFile(data: seq<bv8>, pos: nat)
    requires Program(data, pos).Some?
    ensures pos < |data|
  {
  }

  lemma NothingPrinted(data: seq<bv8>, pos: nat)
    requires pos < |data| && data[pos] == RETURN
    ensures Program(data, pos) == Some([]) && Listing(data, pos) == [] && PrintedAt([], data, pos)
            && Operations([]) == []
  {
  }
}
