/** Iterating over EVM bytecode (chisel/src/executor.rs). PUSH opcodes are those of Appendix H of the
    Ethereum Yellow Paper: 0x60 to 0x7f push 1 to 32 bytes that follow the opcode. */
module Instructions {
  import opened Bytes

  /** The data field always has 32 cells; the unused ones are zero. */
  datatype Instruction = Instruction(pc: nat, opcode: byte, data: seq<byte>, dataLen: nat)

  function PushLength(opcode: byte): (n: nat)
    ensures n <= 32
  {
    if 0x60 <= opcode <= 0x7f then opcode - 0x60 + 1 else 0
  }

  /** `Panic` is the out-of-range slice of a PUSH whose data is cut off. */
  datatype Next = Item(instruction: Instruction) | End | Panic

  function NextAt(code: seq<byte>, offset: nat): (n: Next)
  {
    if offset >= |code| then End
    else
      var len := PushLength(code[offset]);
      if offset + 1 + len > |code| then Panic
      else Item(Instruction(offset, code[offset], code[offset + 1..offset + 1 + len] + Fill<byte>(0, 32 - len), len))
  }

  class InstructionIter {
    const code: seq<byte>
    var offset: nat

    constructor (code: seq<byte>)
      ensures this.code == code && offset == 0
    {
      this.code, offset := code, 0;
    }

    method Advance() returns (next: Next)
      modifies this
      ensures next == NextAt(code, old(offset))
      ensures next.Item? ==> offset == old(offset) + 1 + next.instruction.dataLen
      ensures !next.Item? ==> offset > old(offset)
    {
      var pc := offset;
      offset := offset + 1;
      if pc >= |code| { return End; }
      var opcode := code[pc];
      var data, dataLen := Fill<byte>(0, 32), 0;
      if 0x60 <= opcode <= 0x7f {
        dataLen := opcode - 0x60 + 1;
        if offset + dataLen > |code| { return Panic; }
        data := code[offset..offset + dataLen] + data[dataLen..];
        assert data == code[offset..offset + dataLen] + Fill<byte>(0, 32 - dataLen);
        offset := offset + dataLen;
      } else {
        assert data == code[offset..offset] + Fill<byte>(0, 32);
      }
      return Item(Instruction(pc, opcode, data, dataLen));
    }
  }

  // ----- the instructions partition the code -----

  datatype Listing = Listing(instructions: seq<Instruction>, panicked: bool)

  /** Everything the iterator yields from an offset on. */
  function ListFrom(code: seq<byte>, offset: nat): (l: Listing)
    decreases |code| - offset
  {
    match NextAt(code, offset)
    case End => Listing([], false)
    case Panic => Listing([], true)
    case Item(i) =>
      var rest := ListFrom(code, offset + 1 + i.dataLen);
      Listing([i] + rest.instructions, rest.panicked)
  }

  /** 0x60 carries one byte of data, 0x61 two, and so on to 0x7f with 32; no other opcode carries
      any. Behind its data the field is zero. */
  predicate WellFormed(i: Instruction) {
    && |i.data| == 32 && i.dataLen == (if 0x60 <= i.opcode < 0x60 + 32 then i.opcode - 0x60 + 1 else 0)
    && i.data[i.dataLen..] == Fill<byte>(0, 32 - i.dataLen)
  }

  function BytesOf(i: Instruction): (bs: seq<byte>)
    requires WellFormed(i)
    ensures |bs| == 1 + i.dataLen
  {
    [i.opcode] + i.data[..i.dataLen]
  }

  function Concat(list: seq<Instruction>): (bs: seq<byte>)
    requires forall k :: 0 <= k < |list| ==> WellFormed(list[k])
  {
    if list == [] then [] else BytesOf(list[0]) + Concat(list[1..])
  }

  /** The instructions follow one another from the offset on and their bytes are the code. */
  predicate Partitions(code: seq<byte>, offset: nat, list: seq<Instruction>) {
    && offset <= |code|
    && (forall k :: 0 <= k < |list| ==> WellFormed(list[k]))
    && (list != [] ==> list[0].pc == offset)
    && (forall k :: 0 <= k < |list| - 1 ==> list[k + 1].pc == list[k].pc + 1 + list[k].dataLen)
    && Concat(list) == code[offset..]
  }

  lemma FrontOfCode(code: seq<byte>, offset: nat, opcode: byte, data: seq<byte>, rest: seq<byte>)
    requires offset <= |code| && code[offset..] == ([opcode] + data) + rest
    ensures offset + 1 + |data| <= |code| && code[offset] == opcode
    ensures code[offset + 1..offset + 1 + |data|] == data && code[offset + 1 + |data|..] == rest
  {
    var s, n := code[offset..], 1 + |data|;
    assert s[0] == opcode && s[1..n] == data && s[n..] == rest;
    assert s[1..n] == code[offset + 1..offset + n] && s[n..] == code[offset + n..];
  }

  lemma FirstOfPartition(code: seq<byte>, offset: nat, list: seq<Instruction>)
    requires Partitions(code, offset, list) && list != []
    ensures NextAt(code, offset) == Item(list[0])
    ensures Partitions(code, offset + 1 + list[0].dataLen, list[1..])
  {
    var i := list[0];
    FrontOfCode(code, offset, i.opcode, i.data[..i.dataLen], Concat(list[1..]));
    assert i.data == i.data[..i.dataLen] + i.data[i.dataLen..];
    assert forall k :: 0 <= k < |list[1..]| ==> list[1..][k] == list[k + 1];
  }

  lemma PartitionCons(code: seq<byte>, offset: nat, i: Instruction, rest: seq<Instruction>)
    requires NextAt(code, offset) == Item(i) && Partitions(code, offset + 1 + i.dataLen, rest)
    ensures Partitions(code, offset, [i] + rest)
  {
    var list, n := [i] + rest, 1 + i.dataLen;
    assert i.data[..i.dataLen] == code[offset + 1..offset + n];
    assert i.data[i.dataLen..] == Fill<byte>(0, 32 - i.dataLen);
    assert forall k :: 1 <= k < |list| ==> list[k] == rest[k - 1];
    assert list[1..] == rest;
    assert code[offset..] == [code[offset]] + code[offset + 1..offset + n] + code[offset + n..];
  }

  lemma ListedCons(code: seq<byte>, offset: nat, list: seq<Instruction>)
    requires list != [] && NextAt(code, offset) == Item(list[0])
    requires ListFrom(code, offset + 1 + list[0].dataLen) == Listing(list[1..], false)
    ensures ListFrom(code, offset) == Listing(list, false)
  {
    assert list == [list[0]] + list[1..];
  }

  lemma {:induction false} PartitionIsListed(code: seq<byte>, offset: nat, list: seq<Instruction>)
    requires Partitions(code, offset, list)
    ensures ListFrom(code, offset) == Listing(list, false)
    decreases |list|
  {
    if list == [] {
      assert code[offset..] == [];
    } else {
      FirstOfPartition(code, offset, list);
      PartitionIsListed(code, offset + 1 + list[0].dataLen, list[1..]);
      ListedCons(code, offset, list);
    }
  }

  lemma {:induction false} ListedIsPartition(code: seq<byte>, offset: nat)
    requires offset <= |code| && !ListFrom(code, offset).panicked
    ensures Partitions(code, offset, ListFrom(code, offset).instructions)
    decreases |code| - offset
  {
    if offset == |code| {
      assert Concat([]) == code[offset..];
    } else {
      var i := NextAt(code, offset).instruction;
      ListedIsPartition(code, offset + 1 + i.dataLen);
      PartitionCons(code, offset, i, ListFrom(code, offset + 1 + i.dataLen).instructions);
    }
  }

  /** The iterator runs through without panicking and yields these instructions exactly when they
      partition the code; so a partition, if there is one, is unique. */
  lemma ListsIff(code: seq<byte>, list: seq<Instruction>)
    ensures ListFrom(code, 0) == Listing(list, false) <==> Partitions(code, 0, list)
  {
    if Partitions(code, 0, list) { PartitionIsListed(code, 0, list); }
    if !ListFrom(code, 0).panicked { ListedIsPartition(code, 0); }
  }

  // ----- the pc of the last instruction of a statement -----

  datatype Span = Span(offset: nat, length: nat)

  /** Source spans paired with instructions; the spans are drawn first, so the code is only read as
      far as there are spans. Nothing if the iterator panics. */
  function Zip(code: seq<byte>, offset: nat, spans: seq<Span>): (r: Option<seq<(Span, Instruction)>>)
    decreases |spans|
  {
    if spans == [] then Some([])
    else
      match NextAt(code, offset)
      case End => Some([])
      case Panic => None
      case Item(i) =>
        match Zip(code, offset + 1 + i.dataLen, spans[1..])
        case None => None
        case Some(rest) => Some([(spans[0], i)] + rest)
  }

  /** The largest pc among the pairs with the wanted span, or zero. */
  function MaxPc(pairs: seq<(Span, Instruction)>, wanted: Span): (pc: nat)
  {
    if pairs == [] then 0
    else Max(if pairs[0].0 == wanted then pairs[0].1.pc else 0, MaxPc(pairs[1..], wanted))
  }

  function FinalPc(code: seq<byte>, spans: seq<Span>, wanted: Span): (pc: Option<nat>)
  {
    match Zip(code, 0, spans)
    case None => None
    case Some(pairs) => Some(MaxPc(pairs, wanted))
  }

  /** Pairing panics exactly when the iterator does and there are more spans than it yields
      instructions before; otherwise it pairs spans and instructions one to one. */
  lemma {:induction false} ZipIff(code: seq<byte>, offset: nat, spans: seq<Span>)
    ensures var l := ListFrom(code, offset);
            var r := Zip(code, offset, spans);
            && (r.None? <==> l.panicked && |spans| > |l.instructions|)
            && (r.Some? ==>
                  && |r.value| == (if |spans| <= |l.instructions| then |spans| else |l.instructions|)
                  && forall k :: 0 <= k < |r.value| ==> r.value[k] == (spans[k], l.instructions[k]))
    decreases |spans|
  {
    if spans != [] && NextAt(code, offset).Item? {
      ZipIff(code, offset + 1 + NextAt(code, offset).instruction.dataLen, spans[1..]);
    }
  }

  /** Pair k is the last one with the wanted span. */
  predicate IsLastMatch(spans: seq<Span>, list: seq<Instruction>, wanted: Span, k: int) {
    && 0 <= k < |spans| && k < |list| && spans[k] == wanted
    && forall j :: k < j < |spans| && j < |list| ==> spans[j] != wanted
  }

  lemma {:induction false} PcsIncrease(code: seq<byte>, offset: nat, j: nat, k: nat)
    requires j <= k < |ListFrom(code, offset).instructions|
    ensures offset <= ListFrom(code, offset).instructions[j].pc <= ListFrom(code, offset).instructions[k].pc
    decreases k
  {
    if k > 0 {
      var next := offset + 1 + NextAt(code, offset).instruction.dataLen;
      PcsIncrease(code, next, if j == 0 then 0 else j - 1, k - 1);
    }
  }

  lemma {:induction false} MaxPcBound(pairs: seq<(Span, Instruction)>, wanted: Span, bound: nat)
    requires forall k :: 0 <= k < |pairs| && pairs[k].0 == wanted ==> pairs[k].1.pc <= bound
    ensures MaxPc(pairs, wanted) <= bound
    ensures forall k :: 0 <= k < |pairs| && pairs[k].0 == wanted ==> pairs[k].1.pc <= MaxPc(pairs, wanted)
  {
    if pairs != [] { MaxPcBound(pairs[1..], wanted, bound); }
  }

  /** For all code: the final pc is that of the last instruction yielded whose source span is the
      statement's, or zero if there is none; it panics exactly when a PUSH is cut off within reach of
      the spans. */
  lemma FinalPcIsLastMatch(code: seq<byte>, spans: seq<Span>, wanted: Span)
    ensures var l := ListFrom(code, 0);
            && (FinalPc(code, spans, wanted).None? <==> l.panicked && |spans| > |l.instructions|)
            && (FinalPc(code, spans, wanted).Some? ==>
                  && (forall k :: IsLastMatch(spans, l.instructions, wanted, k) ==>
                        FinalPc(code, spans, wanted) == Some(l.instructions[k].pc))
                  && ((forall k :: 0 <= k < |spans| && k < |l.instructions| ==> spans[k] != wanted) ==>
                        FinalPc(code, spans, wanted) == Some(0)))
  {
    ZipIff(code, 0, spans);
    var list := ListFrom(code, 0).instructions;
    if FinalPc(code, spans, wanted).Some? {
      var pairs := Zip(code, 0, spans).value;
      forall k | IsLastMatch(spans, list, wanted, k) ensures MaxPc(pairs, wanted) == list[k].pc {
        forall j | 0 <= j < |pairs| && pairs[j].0 == wanted ensures pairs[j].1.pc <= list[k].pc {
          PcsIncrease(code, 0, j, k);
        }
        MaxPcBound(pairs, wanted, list[k].pc);
        assert pairs[k].0 == wanted;
      }
      if forall k :: 0 <= k < |spans| && k < |list| ==> spans[k] != wanted {
        MaxPcBound(pairs, wanted, 0);
      }
    }
  }
}
