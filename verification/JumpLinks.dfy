/** Direct jumps between translated blocks (asbestos/asbestos.c, asbestos/gen.c).

    A block ends in up to two jump slots.  A slot first holds the guest address it jumps
    to; once the target is translated the slot is patched to the target's host code
    address, and the block is put on the target's `jumps_from` list so that the patch can
    be undone.  The two slot numbers never interact, so one `Layer` describes the slots
    and lists of one number. */
module JumpLinks {
  import opened Lists

  type Id = nat  // the host address of a struct fiber_block

  /** The immutable part of a block: where it was translated from, how many guest bytes it
      covers, and the guest addresses its slots were generated with. */
  datatype Block = Block(addr: nat, len: nat, ips: seq<Option<nat>>)

  datatype Slot = Unlinked(ip: nat) | Linked(to: Id)

  datatype Layer = Layer(slot: map<Id, Slot>, from: map<Id, seq<Id>>)

  const CODE_OFFSET: nat := 184  // offset of the code array in struct fiber_block

  /** The low 32 bits of a slot's word, all that the patching code looks at. */
  function SlotLow(v: Slot): nat {
    match v
    case Unlinked(ip) => ip
    case Linked(b) => (b + CODE_OFFSET) % 0x1_0000_0000
  }

  // ------------------------------------------------------------------ the operations on one layer

  /** gen_end: a new block's slot holds its guest address. */
  function Add(l: Layer, b: Id, ip: Option<nat>): Layer {
    Layer(if ip.Some? then l.slot[b := Unlinked(ip.value)] else l.slot, l.from[b := []])
  }

  /** The patch in cpu_step_to_interrupt, with both blocks known not to be jetsam. */
  function Patch(l: Layer, last: Id, b: Id, addr: nat): Layer {
    if last in l.slot && SlotLow(l.slot[last]) == addr && b in l.from then
      Layer(l.slot[last := Linked(b)], l.from[b := [last] + l.from[b]])
    else l
  }

  /** `jumps_from` once the block itself has left its target's list. */
  function Unlist(l: Layer, b: Id): map<Id, seq<Id>> {
    if b in l.slot && l.slot[b].Linked? && l.slot[b].to in l.from then
      l.from[l.slot[b].to := Without(l.from[l.slot[b].to], b)]
    else l.from
  }

  /** One round of fiber_block_disconnect. */
  function Disconnect(l: Layer, blocks: map<Id, Block>, i: nat, b: Id): Layer
    requires b in l.from
  {
    var preds := Unlist(l, b)[b];
    Layer(map p | p in l.slot :: if p in preds then Original(blocks, i, p, l.slot[p]) else l.slot[p],
          Unlist(l, b)[b := []])
  }

  /** old_jump_ip. */
  function Original(blocks: map<Id, Block>, i: nat, p: Id, current: Slot): Slot {
    if p in blocks && i < |blocks[p].ips| && blocks[p].ips[i].Some? then Unlinked(blocks[p].ips[i].value)
    else current
  }

  /** fiber_free_jetsam. */
  function Free(l: Layer, gone: set<Id>): Layer {
    Layer(l.slot - gone, l.from - gone)
  }

  // ------------------------------------------------------------------ exactness

  /** A slot holds its original address or a block translated from it.  A block that has
      been discarded may be left with a stale link, but never to freed memory. */
  ghost predicate SlotOk(l: Layer, blocks: map<Id, Block>, dead: set<Id>, i: nat, b: Id) {
    && b in blocks && b in l.slot
    && i < |blocks[b].ips| && blocks[b].ips[i].Some?
    && match l.slot[b]
       case Unlinked(ip) => ip == blocks[b].ips[i].value
       case Linked(t) =>
         && t in blocks && t in l.from
         && blocks[t].addr == blocks[b].ips[i].value
         && (b !in dead ==> t !in dead && b in l.from[t])
  }

  /** A block's list holds exactly the live blocks linked to it, each once. */
  ghost predicate FromOk(l: Layer, blocks: map<Id, Block>, dead: set<Id>, t: Id) {
    && t in l.from
    && Distinct(l.from[t])
    && (t in dead ==> l.from[t] == [])
    && (forall p :: p in l.from[t] ==> p in l.slot && l.slot[p] == Linked(t) && p !in dead)
  }

  ghost predicate LayerOk(l: Layer, blocks: map<Id, Block>, dead: set<Id>, i: nat) {
    && l.from.Keys == blocks.Keys
    && (forall b {:trigger SlotOk(l, blocks, dead, i, b)} :: b in l.slot ==> SlotOk(l, blocks, dead, i, b))
    && (forall t {:trigger FromOk(l, blocks, dead, t)} :: t in blocks ==> FromOk(l, blocks, dead, t))
  }

  lemma AddOk(l: Layer, blocks: map<Id, Block>, dead: set<Id>, i: nat, b: Id, nb: Block)
    requires LayerOk(l, blocks, dead, i) && b !in blocks && b !in dead && i < |nb.ips|
    ensures LayerOk(Add(l, b, nb.ips[i]), blocks[b := nb], dead, i)
  {
    var l', blocks' := Add(l, b, nb.ips[i]), blocks[b := nb];
    forall p | p in l'.slot ensures SlotOk(l', blocks', dead, i, p) {
      assert p in l.slot ==> SlotOk(l, blocks, dead, i, p);
    }
    forall t | t in blocks' ensures FromOk(l', blocks', dead, t) {
      assert t in blocks ==> FromOk(l, blocks, dead, t);
      assert forall p :: p in l.slot && p == b ==> SlotOk(l, blocks, dead, i, p);
    }
  }

  /** What the patching code does not check: whether the slot is already linked to a block
      whose host code address ends in the very guest address being patched in. */
  predicate NoAlias(l: Layer, last: Id, addr: nat) {
    last in l.slot && l.slot[last].Linked? ==> SlotLow(l.slot[last]) != addr
  }

  lemma PatchOk(l: Layer, blocks: map<Id, Block>, dead: set<Id>, i: nat, last: Id, b: Id)
    requires LayerOk(l, blocks, dead, i) && b in blocks && b !in dead && last !in dead
    requires NoAlias(l, last, blocks[b].addr)
    ensures LayerOk(Patch(l, last, b, blocks[b].addr), blocks, dead, i)
  {
    var l' := Patch(l, last, b, blocks[b].addr);
    assert FromOk(l, blocks, dead, b);
    assert last in l.slot ==> SlotOk(l, blocks, dead, i, last);
    if l' != l {
      forall p | p in l'.slot ensures SlotOk(l', blocks, dead, i, p) {
        assert SlotOk(l, blocks, dead, i, p);
      }
      forall t | t in blocks ensures FromOk(l', blocks, dead, t) {
        assert FromOk(l, blocks, dead, t);
      }
    }
  }

  lemma AliasBreaks(l: Layer, blocks: map<Id, Block>, dead: set<Id>, i: nat, last: Id, b: Id)
    requires LayerOk(l, blocks, dead, i) && b in blocks && b !in dead && last !in dead
    requires !NoAlias(l, last, blocks[b].addr)
    ensures !LayerOk(Patch(l, last, b, blocks[b].addr), blocks, dead, i)
  {
    var l', t := Patch(l, last, b, blocks[b].addr), l.slot[last].to;
    assert SlotOk(l, blocks, dead, i, last) && FromOk(l, blocks, dead, b);
    if t == b {
      var k :| 0 <= k < |l.from[b]| && l.from[b][k] == last;
      assert l'.from[b][0] == l'.from[b][k + 1];
      assert !FromOk(l', blocks, dead, b);
    } else {
      assert last in l'.from[t] && l'.slot[last] != Linked(t);
      assert !FromOk(l', blocks, dead, t);
    }
  }

  /** Patching keeps the links exact if and only if no alias is met. */
  lemma PatchExactIffNoAlias(l: Layer, blocks: map<Id, Block>, dead: set<Id>, i: nat, last: Id, b: Id)
    requires LayerOk(l, blocks, dead, i) && b in blocks && b !in dead && last !in dead
    ensures LayerOk(Patch(l, last, b, blocks[b].addr), blocks, dead, i) <==> NoAlias(l, last, blocks[b].addr)
  {
    if NoAlias(l, last, blocks[b].addr) {
      PatchOk(l, blocks, dead, i, last, b);
    } else {
      AliasBreaks(l, blocks, dead, i, last, b);
    }
  }

  /** Disconnecting a block restores the original address in every live predecessor and
      touches no other slot. */
  lemma DisconnectRestores(l: Layer, blocks: map<Id, Block>, dead: set<Id>, i: nat, b: Id, p: Id)
    requires LayerOk(l, blocks, dead, i) && b in blocks && p in l.slot
    ensures Disconnect(l, blocks, i, b).slot.Keys == l.slot.Keys
    ensures SlotOk(l, blocks, dead, i, p)
    ensures Disconnect(l, blocks, i, b).slot[p] ==
            if p !in dead && p != b && l.slot[p] == Linked(b) then Unlinked(blocks[p].ips[i].value) else l.slot[p]
  {
    assert SlotOk(l, blocks, dead, i, p) && FromOk(l, blocks, dead, b);
    WithoutElements(l.from[b], b);
    assert b in l.slot ==> SlotOk(l, blocks, dead, i, b);
  }

  lemma UnlistElements(l: Layer, blocks: map<Id, Block>, dead: set<Id>, i: nat, b: Id, t: Id)
    requires LayerOk(l, blocks, dead, i) && t in blocks
    ensures Unlist(l, b).Keys == l.from.Keys
    ensures Distinct(Unlist(l, b)[t])
    ensures forall p :: p in Unlist(l, b)[t] <==> p in l.from[t] && p != b
  {
    assert FromOk(l, blocks, dead, t);
    WithoutElements(l.from[t], b);
    assert b in l.slot ==> SlotOk(l, blocks, dead, i, b);
  }

  lemma DisconnectOk(l: Layer, blocks: map<Id, Block>, dead: set<Id>, i: nat, b: Id)
    requires LayerOk(l, blocks, dead, i) && b in blocks
    ensures LayerOk(Disconnect(l, blocks, i, b), blocks, dead + {b}, i)
  {
    var l', dead' := Disconnect(l, blocks, i, b), dead + {b};
    UnlistElements(l, blocks, dead, i, b, b);
    forall p | p in l'.slot ensures SlotOk(l', blocks, dead', i, p) {
      DisconnectRestores(l, blocks, dead, i, b, p);
      if l.slot[p].Linked? {
        UnlistElements(l, blocks, dead, i, b, l.slot[p].to);
      }
    }
    forall t | t in blocks ensures FromOk(l', blocks, dead', t) {
      UnlistElements(l, blocks, dead, i, b, t);
      assert FromOk(l, blocks, dead, t);
      forall p | p in l'.from[t] ensures p in l'.slot && l'.slot[p] == Linked(t) && p !in dead' {
        DisconnectRestores(l, blocks, dead, i, b, p);
      }
    }
  }

  lemma FreeOk(l: Layer, blocks: map<Id, Block>, dead: set<Id>, i: nat)
    requires LayerOk(l, blocks, dead, i)
    ensures LayerOk(Free(l, dead), blocks - dead, {}, i)
  {
    var l', blocks' := Free(l, dead), blocks - dead;
    forall p | p in l'.slot ensures SlotOk(l', blocks', {}, i, p) {
      assert SlotOk(l, blocks, dead, i, p);
    }
    forall t | t in blocks' ensures FromOk(l', blocks', {}, t) {
      assert FromOk(l, blocks, dead, t);
    }
  }
}
