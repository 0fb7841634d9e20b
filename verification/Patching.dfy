// The open blocks of the generator: their patch lists, and the jump fields
// ("holes") that still wait to be filled.
module Patching {
  import opened Wrappers
  import opened Bytecode
  import opened CodeMeaning
  import opened CodeHoles

  // A block the generator has open; the lists hold the positions of the jump
  // fields to be patched, most recent first.
  datatype OpenBlock = OpenBlock(kind: Kind, name: string, continuation: seq<nat>, exit: seq<nat>)

  function Scopes(blocks: seq<OpenBlock>): (s: seq<Scope>)
    ensures |s| == |blocks|
    ensures forall k | 0 <= k < |blocks| :: s[k] == Scope(blocks[k].kind, blocks[k].name)
  {
    seq(|blocks|, k requires 0 <= k < |blocks| => Scope(blocks[k].kind, blocks[k].name))
  }

  predicate NoDuplicates(s: seq<nat>) {
    forall i, j | 0 <= i < j < |s| :: s[i] != s[j]
  }

  // The lists of the open block number k hold exactly its holes, each once.
  ghost predicate ListsOk(b: OpenBlock, k: nat, h: map<nat, Hole>) {
    && (forall p | p in b.exit :: p in h && h[p] == Hole(k, true))
    && (forall p | p in b.continuation :: p in h && h[p] == Hole(k, false))
    && (forall p | p in h && h[p].block == k :: p in if h[p].isExit then b.exit else b.continuation)
    && NoDuplicates(b.exit) && NoDuplicates(b.continuation)
    && (b.kind != LoopKind ==> b.continuation == [])
  }

  // Every hole belongs to an open block, and still holds its initial one.
  ghost predicate HolesOk(code: seq<Word>, blocks: seq<OpenBlock>, holes: map<nat, Hole>) {
    && (forall k | 0 <= k < |blocks| :: ListsOk(blocks[k], k, holes))
    && (forall p | p in holes :: 1 <= p < |code| && code[p] == Offset(1) && holes[p].block < |blocks|)
  }

  // New holes only from position lo on.
  predicate MoreHoles(h0: map<nat, Hole>, h1: map<nat, Hole>, lo: nat) {
    && (forall p | p in h0 :: p in h1 && h1[p] == h0[p])
    && (forall p | p in h1 :: p in h0 || p >= lo)
  }

  function Without(h: map<nat, Hole>, list: seq<nat>): map<nat, Hole> {
    map p | p in h && p !in list :: h[p]
  }

  // c1 is c0 with every listed jump field leading to the word number at.
  predicate Patched(c0: seq<Word>, c1: seq<Word>, list: seq<nat>, at: nat) {
    && |c0| == |c1|
    && forall p | 0 <= p < |c0| :: c1[p] == if p in list then Offset(at - (p - 1)) else c0[p]
  }

  // Code appended after c0 and a hole-free tail leave earlier stretches alone.
  lemma AppendKeeps(c0: seq<Word>, h0: map<nat, Hole>, c1: seq<Word>, h1: map<nat, Hole>, lo: nat, hi: nat)
    requires lo <= hi <= |c0| && c0 <= c1 && MoreHoles(h0, h1, |c0|)
    ensures SameStretch(c0, h0, c1, h1, lo, hi) && Agrees(c0, c1, lo, hi)
  {
  }

  lemma InnermostLists(c: seq<Word>, b: seq<OpenBlock>, h: map<nat, Hole>)
    requires b != [] && HolesOk(c, b, h)
    ensures ListsOk(b[|b| - 1], |b| - 1, h) && forall p | p in h :: h[p].block <= |b| - 1
  {
  }

  lemma InnermostFields(c: seq<Word>, b: seq<OpenBlock>, h: map<nat, Hole>)
    requires b != [] && HolesOk(c, b, h)
    ensures var last := b[|b| - 1];
            && NoDuplicates(last.exit) && NoDuplicates(last.continuation)
            && forall p | p in last.exit || p in last.continuation :: p < |c| && c[p] == Offset(1)
  {
    assert ListsOk(b[|b| - 1], |b| - 1, h);
  }

  // Closing block k: its continuation list patched first, then other code
  // appended, then its exit list patched.
  lemma ListsClose(c1: seq<Word>, b: OpenBlock, k: nat, h1: map<nat, Hole>, c2: seq<Word>, c3: seq<Word>,
                   c4: seq<Word>, lo: nat, cont: nat, end: nat)
    requires ListsOk(b, k, h1) && (forall p | p in h1 :: h1[p].block <= k) && lo <= |c1|
    requires Patched(c1, c2, b.continuation, cont)
    requires |c1| <= |c3| && forall p | lo <= p < |c1| :: c3[p] == c2[p]
    requires Patched(c3, c4, b.exit, end)
    ensures ClosedBlock(c1, h1, c4, Without(Without(h1, b.continuation), b.exit), k, Target(end, cont), lo, |c1|)
  {
  }

  predicate Below(h: map<nat, Hole>, n: nat) {
    forall p | p in h :: p < n
  }

  lemma HolesBelow(c: seq<Word>, b: seq<OpenBlock>, h: map<nat, Hole>)
    requires HolesOk(c, b, h)
    ensures Below(h, |c|) && forall p | p in h :: h[p].block < |b|
  {
  }

  lemma NoHoles(c: seq<Word>, b: seq<OpenBlock>, h: map<nat, Hole>)
    requires HolesOk(c, b, h) && Scopes(b) == []
    ensures h == map[] && b == []
  {
    assert forall p | p in h :: h[p].block < |b|;
  }

  // Writing anywhere but in the holes keeps them in order.
  lemma HolesKeep(c0: seq<Word>, c1: seq<Word>, b: seq<OpenBlock>, h: map<nat, Hole>)
    requires HolesOk(c0, b, h) && |c0| <= |c1|
    requires forall p | p in h && p < |c0| :: c1[p] == c0[p]
    ensures HolesOk(c1, b, h)
  {
  }

  lemma HolesOpen(c: seq<Word>, b: seq<OpenBlock>, h: map<nat, Hole>, n: OpenBlock)
    requires HolesOk(c, b, h) && n.continuation == n.exit == []
    ensures HolesOk(c, b + [n], h)
  {
    forall k | 0 <= k < |b| + 1 ensures ListsOk((b + [n])[k], k, h) {
      if k < |b| {
        assert ListsOk(b[k], k, h);
      }
    }
  }

  // Dropping or adding holes of one block leaves the lists of the others alone.
  lemma OtherLists(b: OpenBlock, k: nat, h0: map<nat, Hole>, h1: map<nat, Hole>, other: nat)
    requires ListsOk(b, k, h0) && other != k
    requires forall p | p in h0 && h0[p].block != other :: p in h1 && h1[p] == h0[p]
    requires forall p | p in h1 && h1[p].block != other :: p in h0 && h0[p] == h1[p]
    ensures ListsOk(b, k, h1)
  {
  }

  // The continuation list of the innermost block is filled.
  lemma HolesContinue(c0: seq<Word>, c1: seq<Word>, b: seq<OpenBlock>, h: map<nat, Hole>, at: nat)
    requires b != [] && HolesOk(c0, b, h)
    requires Patched(c0, c1, b[|b| - 1].continuation, at)
    ensures var last := b[|b| - 1];
            HolesOk(c1, b[|b| - 1 := last.(continuation := [])], Without(h, last.continuation))
  {
    var n, last := |b| - 1, b[|b| - 1];
    var b1, h1 := b[n := last.(continuation := [])], Without(h, last.continuation);
    forall k | 0 <= k < |b1| ensures ListsOk(b1[k], k, h1) {
      assert ListsOk(b[k], k, h) && ListsOk(last, n, h);
      if k < n {
        OtherLists(b[k], k, h, h1, n);
      }
    }
  }

  // The exit list of the innermost block is filled and the block is gone.
  lemma HolesClose(c0: seq<Word>, c1: seq<Word>, b: seq<OpenBlock>, h: map<nat, Hole>, at: nat)
    requires b != [] && HolesOk(c0, b, h) && b[|b| - 1].continuation == []
    requires Patched(c0, c1, b[|b| - 1].exit, at)
    ensures HolesOk(c1, b[..|b| - 1], Without(h, b[|b| - 1].exit))
  {
    var n, last := |b| - 1, b[|b| - 1];
    var h1 := Without(h, last.exit);
    assert ListsOk(last, n, h);
    forall k | 0 <= k < n ensures ListsOk(b[k], k, h1) {
      OtherLists(b[k], k, h, h1, n);
    }
  }

  function AddPatch(b: OpenBlock, isExit: bool, p: nat): OpenBlock {
    if isExit then b.(exit := [p] + b.exit) else b.(continuation := [p] + b.continuation)
  }

  // A new hole at the head of a list of block k.
  lemma HolesAdd(c0: seq<Word>, c1: seq<Word>, b: seq<OpenBlock>, h: map<nat, Hole>, k: nat, isExit: bool, p: nat)
    requires HolesOk(c0, b, h) && k < |b| && c0 <= c1 && 1 <= p && |c0| <= p < |c1| && c1[p] == Offset(1)
    requires !isExit ==> b[k].kind == LoopKind
    ensures HolesOk(c1, b[k := AddPatch(b[k], isExit, p)], h[p := Hole(k, isExit)])
  {
    var b1, h1 := b[k := AddPatch(b[k], isExit, p)], h[p := Hole(k, isExit)];
    forall j | 0 <= j < |b1| ensures ListsOk(b1[j], j, h1) {
      assert ListsOk(b[j], j, h) && p !in h;
      if j != k {
        OtherLists(b[j], j, h, h1, k);
      }
    }
  }
}
