/** Synchronized checkpoints over a growing block tree. Signatures, the disk and the change of the
    main chain are outcomes given with each step. */
module Checkpoints {
  import opened Options

  type Hash = nat

  const NULL_HASH: Hash := 0

  // ----- the block tree

  datatype Node = Node(prev: Option<Hash>, height: nat)

  type Tree = map<Hash, Node>

  predicate TreeOk(tree: Tree) {
    && NULL_HASH !in tree
    && forall h :: h in tree ==> NodeOk(tree, h)
  }

  predicate NodeOk(tree: Tree, h: Hash)
    requires h in tree
  {
    match tree[h].prev
    case None => tree[h].height == 0
    case Some(p) => p in tree && tree[h].height == tree[p].height + 1
  }

  // a is b or a block that b builds on.
  predicate IsAncestor(tree: Tree, a: Hash, b: Hash)
    requires TreeOk(tree) && b in tree
    decreases tree[b].height
  {
    assert NodeOk(tree, b);
    a == b || (tree[b].prev.Some? && IsAncestor(tree, a, tree[b].prev.value))
  }

  predicate Extends(tree: Tree, more: Tree) {
    forall h :: h in tree ==> h in more && more[h] == tree[h]
  }

  lemma {:induction false} AncestorIsLower(tree: Tree, a: Hash, b: Hash)
    requires TreeOk(tree) && b in tree && IsAncestor(tree, a, b)
    ensures a in tree && tree[a].height <= tree[b].height && (tree[a].height == tree[b].height ==> a == b)
    decreases tree[b].height
  {
    assert NodeOk(tree, b);
    if a != b {
      AncestorIsLower(tree, a, tree[b].prev.value);
    }
  }

  lemma {:induction false} AncestorTrans(tree: Tree, a: Hash, b: Hash, c: Hash)
    requires TreeOk(tree) && c in tree && IsAncestor(tree, b, c) && b in tree && IsAncestor(tree, a, b)
    ensures IsAncestor(tree, a, c)
    decreases tree[c].height
  {
    assert NodeOk(tree, c);
    if b != c {
      AncestorTrans(tree, a, b, tree[c].prev.value);
    }
  }

  // Growing the tree changes nothing for the blocks that are in it.
  lemma {:induction false} AncestorInMore(tree: Tree, more: Tree, a: Hash, b: Hash)
    requires TreeOk(tree) && TreeOk(more) && Extends(tree, more) && b in tree
    ensures IsAncestor(more, a, b) == IsAncestor(tree, a, b)
    decreases tree[b].height
  {
    assert NodeOk(tree, b);
    if tree[b].prev.Some? {
      AncestorInMore(tree, more, a, tree[b].prev.value);
    }
  }

  // Walks back to a height; the link it follows is never missing.
  method TraceBack(tree: Tree, from: Hash, height: nat) returns (at: Hash)
    requires TreeOk(tree) && from in tree && height <= tree[from].height
    ensures at in tree && tree[at].height == height && IsAncestor(tree, at, from)
    ensures forall a :: a in tree && tree[a].height == height ==> (IsAncestor(tree, a, from) <==> a == at)
  {
    at := from;
    while tree[at].height > height
      invariant at in tree && height <= tree[at].height && IsAncestor(tree, at, from)
      invariant forall a :: a in tree && tree[a].height <= height ==>
                  IsAncestor(tree, a, from) == IsAncestor(tree, a, at)
      decreases tree[at].height
    {
      assert NodeOk(tree, at);
      ghost var was := at;
      at := tree[at].prev.value;
      assert IsAncestor(tree, at, was);
      AncestorTrans(tree, at, was, from);
    }
    forall a | a in tree && tree[a].height == height ensures IsAncestor(tree, a, from) <==> a == at {
      if IsAncestor(tree, a, at) {
        AncestorIsLower(tree, a, at);
      }
    }
  }

  // ----- the check of a block

  // Whether a block with this parent may be accepted under checkpoint sync.
  predicate Passes(tree: Tree, sync: Hash, block: Hash, parent: Hash)
    requires TreeOk(tree) && sync in tree && parent in tree
  {
    var height := tree[parent].height + 1;
    if height > tree[sync].height then IsAncestor(tree, sync, parent)
    else if height == tree[sync].height then block == sync
    else block in tree
  }

  // ----- the steps

  datatype Message = Message(checkpoint: Hash, signature: nat)

  // The outcomes of what a step leaves to the disk and to the main chain.
  datatype Outcome = Outcome(readOk: bool, bestChainOk: bool, writeOk: bool, newMain: set<Hash>)

  datatype State = State(tree: Tree, main: set<Hash>, sync: Hash, pending: Hash, invalid: Hash,
                         message: Option<Message>, messagePending: Option<Message>)

  // What every run keeps: the checkpoint is a known block, the message relayed names it, and the
  // message kept for later names the pending checkpoint.
  predicate StateOk(s: State) {
    && TreeOk(s.tree) && s.sync in s.tree
    && (s.message.Some? ==> s.message.value.checkpoint == s.sync)
    && (s.messagePending.Some? ==> s.messagePending.value.checkpoint == s.pending)
    && (s.pending != NULL_HASH ==> s.messagePending.Some?)
  }

  predicate IsNewer(s: State, h: Hash)
    requires TreeOk(s.tree)
  {
    h in s.tree && s.sync in s.tree && s.sync != h && IsAncestor(s.tree, s.sync, h)
  }

  predicate Conflicts(s: State, h: Hash)
    requires TreeOk(s.tree)
  {
    h in s.tree && s.sync in s.tree && !IsAncestor(s.tree, s.sync, h) && !IsAncestor(s.tree, h, s.sync)
  }

  // The state after the block of a valid checkpoint has been put on the main chain, if that works.
  function Switched(s: State, h: Hash, o: Outcome): (r: (State, bool)) {
    if h in s.main then (s, true)
    else if !o.readOk then (s, false)
    else if !o.bestChainOk then (s.(invalid := h), false)
    else (s.(main := o.newMain + {h}), true)
  }

  function Noted(s: State, h: Hash): State
    requires TreeOk(s.tree)
  {
    if Conflicts(s, h) then s.(invalid := h) else s
  }

  function Processed(s: State, m: Message, signed: bool, o: Outcome): (r: (State, bool))
    requires TreeOk(s.tree)
  {
    var h := m.checkpoint;
    if !signed then (s, false)
    else if h !in s.tree then (s.(pending := h, messagePending := Some(m)), false)
    else if !IsNewer(s, h) then (Noted(s, h), false)
    else
      var (t, switched) := Switched(s, h, o);
      if !switched || !o.writeOk then (t, false)
      else (t.(sync := h, message := Some(m), pending := NULL_HASH, messagePending := None), true)
  }

  function Accepted(s: State, o: Outcome): (r: (State, bool))
    requires TreeOk(s.tree)
  {
    var h := s.pending;
    if h == NULL_HASH || h !in s.tree then (s, false)
    else if !IsNewer(s, h) then (Noted(s, h).(pending := NULL_HASH, messagePending := None), false)
    else
      var (t, switched) := Switched(s, h, o);
      if !switched || !o.writeOk then (t, false)
      else (t.(sync := h, message := s.messagePending, pending := NULL_HASH, messagePending := None), true)
  }

  // A block comes into the tree.
  function Grown(s: State, h: Hash, prev: Option<Hash>): State {
    if h in s.tree || h == NULL_HASH || (prev.Some? && prev.value !in s.tree) then s
    else s.(tree := s.tree[h := Node(prev, if prev.None? then 0 else s.tree[prev.value].height + 1)])
  }

  // The main chain is changed by other code.
  datatype Op =
    | Grow(h: Hash, prev: Option<Hash>)
    | Process(m: Message, signed: bool, o: Outcome)
    | Accept(o: Outcome)
    | Reorganize(main: set<Hash>)

  function Step(s: State, op: Op): State
    requires TreeOk(s.tree)
  {
    match op
    case Grow(h, prev) => Grown(s, h, prev)
    case Process(m, signed, o) => Processed(s, m, signed, o).0
    case Accept(o) => Accepted(s, o).0
    case Reorganize(main) => s.(main := main)
  }

  function Run(s: State, ops: seq<Op>): (r: State)
    requires TreeOk(s.tree)
    ensures TreeOk(r.tree)
    decreases |ops|
  {
    if ops == [] then s
    else
      var t := Run(s, ops[..|ops| - 1]);
      StepKeepsTree(t, ops[|ops| - 1]);
      Step(t, ops[|ops| - 1])
  }

  lemma GrownOk(s: State, h: Hash, prev: Option<Hash>)
    requires TreeOk(s.tree)
    ensures TreeOk(Grown(s, h, prev).tree) && Extends(s.tree, Grown(s, h, prev).tree)
  {
    var t := Grown(s, h, prev);
    forall k | k in t.tree ensures NodeOk(t.tree, k) {
      if k in s.tree {
        assert NodeOk(s.tree, k);
      }
    }
  }

  lemma StepKeepsTree(s: State, op: Op)
    requires TreeOk(s.tree)
    ensures TreeOk(Step(s, op).tree) && Extends(s.tree, Step(s, op).tree)
  {
    if op.Grow? {
      GrownOk(s, op.h, op.prev);
    }
  }

  // A step keeps the checkpoint or moves it to a block that builds on it.
  lemma StepMovesForward(s: State, op: Op)
    requires StateOk(s)
    ensures var t := Step(s, op);
            && StateOk(t) && Extends(s.tree, t.tree)
            && (t.sync == s.sync || (t.tree == s.tree && IsNewer(s, t.sync)))
            && IsAncestor(t.tree, s.sync, t.sync)
  {
    hide NodeOk;
    StepKeepsTree(s, op);
  }

  // Over every run the checkpoint is a known block that builds on the earlier checkpoints.
  lemma {:induction false} RunMovesForward(s: State, ops: seq<Op>)
    requires StateOk(s)
    ensures var t := Run(s, ops);
            StateOk(t) && Extends(s.tree, t.tree) && IsAncestor(t.tree, s.sync, t.sync)
    decreases |ops|
  {
    if ops != [] {
      var before := Run(s, ops[..|ops| - 1]);
      RunMovesForward(s, ops[..|ops| - 1]);
      var op := ops[|ops| - 1];
      StepMovesForward(before, op);
      var t := Step(before, op);
      AncestorInMore(before.tree, t.tree, s.sync, before.sync);
      AncestorTrans(t.tree, s.sync, before.sync, t.sync);
    }
  }

  // ----- and it does move

  predicate Works(o: Outcome) { o.readOk && o.bestChainOk && o.writeOk }

  // A message is followed at once exactly when it is signed, names a block that builds on the checkpoint
  // and is not it, and nothing goes wrong on the way; else checkpoint and relayed message stay.
  lemma ProcessedExactly(s: State, m: Message, signed: bool, o: Outcome)
    requires StateOk(s)
    ensures var (t, ok) := Processed(s, m, signed, o);
            && (ok <==> signed && m.checkpoint in s.tree && m.checkpoint != s.sync
                        && IsAncestor(s.tree, s.sync, m.checkpoint)
                        && (m.checkpoint in s.main || (o.readOk && o.bestChainOk)) && o.writeOk)
            && (ok ==> t.sync == m.checkpoint && t.message == Some(m) && m.checkpoint in t.main
                       && t.pending == NULL_HASH && t.messagePending == None && t.invalid == s.invalid)
            && (!ok ==> t.sync == s.sync && t.message == s.message)
            && t.tree == s.tree && (m.checkpoint in s.main || !signed ==> t.main == s.main)
            && (ok && m.checkpoint !in s.main ==> t.main == o.newMain + {m.checkpoint})
  {
  }

  // What a message leaves behind that is not followed.
  lemma NotFollowed(s: State, m: Message, signed: bool, o: Outcome)
    requires StateOk(s)
    ensures var h, t := m.checkpoint, Processed(s, m, signed, o).0;
            && (!signed ==> t == s)
            && (signed && h !in s.tree ==> t == s.(pending := h, messagePending := Some(m)))
            && (signed && h in s.tree && IsAncestor(s.tree, h, s.sync) ==> t == s)
            && (signed && h in s.tree && !IsAncestor(s.tree, h, s.sync) && !IsAncestor(s.tree, s.sync, h) ==>
                  t == s.(invalid := h))
            && (signed && IsNewer(s, h) && h !in s.main && o.readOk && !o.bestChainOk ==> t == s.(invalid := h))
  {
    if m.checkpoint in s.tree && IsAncestor(s.tree, m.checkpoint, s.sync) && IsNewer(s, m.checkpoint) {
      AncestorIsLower(s.tree, m.checkpoint, s.sync);
      AncestorIsLower(s.tree, s.sync, m.checkpoint);
    }
  }

  lemma AcceptedExactly(s: State, o: Outcome)
    requires StateOk(s)
    ensures var (t, ok) := Accepted(s, o);
            && (ok <==> s.pending in s.tree && s.pending != s.sync && IsAncestor(s.tree, s.sync, s.pending)
                        && (s.pending in s.main || (o.readOk && o.bestChainOk)) && o.writeOk)
            && (ok ==> t.sync == s.pending && t.message == s.messagePending && s.pending in t.main
                       && t.pending == NULL_HASH && t.messagePending == None && t.invalid == s.invalid)
            && (!ok ==> t.sync == s.sync && t.message == s.message)
            && (s.pending !in s.tree ==> t == s)
            && (s.pending in s.tree && !IsNewer(s, s.pending) ==> t.pending == NULL_HASH && t.messagePending == None)
            && (s.pending in s.tree && Conflicts(s, s.pending) ==> t.invalid == s.pending)
            && t.tree == s.tree && (s.pending in s.main ==> t.main == s.main)
  {
  }

  // Until another signed message comes or its block does, the pending checkpoint stays pending.
  lemma {:induction false} PendingStays(s: State, ops: seq<Op>)
    requires StateOk(s) && s.pending !in Run(s, ops).tree
    requires forall i :: 0 <= i < |ops| ==> !(ops[i].Process? && ops[i].signed)
    ensures var t := Run(s, ops);
            t.pending == s.pending && t.messagePending == s.messagePending && t.sync == s.sync && t.message == s.message
    decreases |ops|
  {
    if ops != [] {
      var n := |ops| - 1;
      var t := Run(s, ops[..n]);
      StepKeepsTree(t, ops[n]);
      PendingStays(s, ops[..n]);
    }
  }

  lemma FollowedWhenIn(t: State, m: Message, p: Hash, o: Outcome)
    requires StateOk(t) && t.pending == m.checkpoint && t.messagePending == Some(m) && Works(o)
    requires m.checkpoint !in t.tree && m.checkpoint != NULL_HASH && p in t.tree && IsAncestor(t.tree, t.sync, p)
    ensures TreeOk(Step(t, Grow(m.checkpoint, Some(p))).tree)
    ensures var u := Step(Step(t, Grow(m.checkpoint, Some(p))), Accept(o));
            && u.sync == m.checkpoint && u.message == Some(m) && m.checkpoint in u.main
            && u.pending == NULL_HASH && u.messagePending == None
  {
    var h := m.checkpoint;
    StepMovesForward(t, Grow(h, Some(p)));
    var g := Step(t, Grow(h, Some(p)));
    assert g == t.(tree := t.tree[h := Node(Some(p), t.tree[p].height + 1)]);
    AncestorInMore(t.tree, g.tree, t.sync, p);
    assert IsAncestor(g.tree, t.sync, h);
    AcceptedExactly(g, o);
  }

  // A checkpoint signed before its block is known is followed when the block comes in, however long that
  // takes, if the block builds on the checkpoint of then.
  lemma PendingFollowed(s: State, m: Message, o: Outcome, ops: seq<Op>, p: Hash, o': Outcome)
    requires StateOk(s) && m.checkpoint !in s.tree && m.checkpoint != NULL_HASH && Works(o')
    requires forall i :: 0 <= i < |ops| ==> !(ops[i].Process? && ops[i].signed)
    requires var t := Run(Step(s, Process(m, true, o)), ops);
             && m.checkpoint !in t.tree && p in t.tree && IsAncestor(t.tree, s.sync, p)
    ensures var t := Run(Step(s, Process(m, true, o)), ops);
            && TreeOk(Step(t, Grow(m.checkpoint, Some(p))).tree)
            && var u := Step(Step(t, Grow(m.checkpoint, Some(p))), Accept(o'));
            && u.sync == m.checkpoint && u.message == Some(m) && m.checkpoint in u.main
            && u.pending == NULL_HASH && u.messagePending == None
  {
    var s1 := Step(s, Process(m, true, o));
    StepMovesForward(s, Process(m, true, o));
    NotFollowed(s, m, true, o);
    RunMovesForward(s1, ops);
    PendingStays(s1, ops);
    hide Run, Accepted, IsAncestor, TreeOk;
    FollowedWhenIn(Run(s1, ops), m, p, o');
  }

  // ----- what the check of a block decides

  // A block that is not in the tree yet passes exactly when the checkpoint will be one of its ancestors.
  lemma PassesExactly(s: State, block: Hash, parent: Hash)
    requires StateOk(s) && parent in s.tree && block !in s.tree && block != NULL_HASH
    ensures TreeOk(Grown(s, block, Some(parent)).tree) && block in Grown(s, block, Some(parent)).tree
    ensures Passes(s.tree, s.sync, block, parent) <==>
            IsAncestor(Grown(s, block, Some(parent)).tree, s.sync, block)
  {
    GrownOk(s, block, Some(parent));
    AncestorInMore(s.tree, Grown(s, block, Some(parent)).tree, s.sync, parent);
    if IsAncestor(s.tree, s.sync, parent) { AncestorIsLower(s.tree, s.sync, parent); }
  }

  // One that is in the tree also when it is below the checkpoint.
  lemma KnownPassesExactly(tree: Tree, sync: Hash, block: Hash)
    requires TreeOk(tree) && sync in tree && block in tree && tree[block].prev.Some?
    ensures tree[block].prev.value in tree
    ensures Passes(tree, sync, block, tree[block].prev.value) <==>
            IsAncestor(tree, sync, block) || tree[block].height < tree[sync].height
  {
    assert NodeOk(tree, block);
    if IsAncestor(tree, sync, block) { AncestorIsLower(tree, sync, block); }
    if IsAncestor(tree, sync, tree[block].prev.value) { AncestorIsLower(tree, sync, tree[block].prev.value); }
  }

  // A block that does not pass does not pass later either, as long as it is not in the tree.
  lemma StaysRejected(s: State, ops: seq<Op>, block: Hash, parent: Hash)
    requires StateOk(s) && parent in s.tree && !Passes(s.tree, s.sync, block, parent)
    requires block !in Run(s, ops).tree
    ensures parent in Run(s, ops).tree && Run(s, ops).sync in Run(s, ops).tree
    ensures !Passes(Run(s, ops).tree, Run(s, ops).sync, block, parent)
  {
    var t := Run(s, ops);
    RunMovesForward(s, ops);
    AncestorIsLower(t.tree, s.sync, t.sync);
    AncestorInMore(s.tree, t.tree, s.sync, parent);
    if t.tree[parent].height + 1 > t.tree[t.sync].height && IsAncestor(t.tree, t.sync, parent) {
      AncestorTrans(t.tree, s.sync, t.sync, parent);
    }
  }

  // ----- the code

  class SyncCheckpoints {
    var tree: Tree
    var main: set<Hash>
    var sync: Hash
    var pending: Hash
    var invalid: Hash
    var message: Option<Message>
    var messagePending: Option<Message>

    function Now(): State
      reads this
    {
      State(tree, main, sync, pending, invalid, message, messagePending)
    }

    constructor (tree: Tree, main: set<Hash>, sync: Hash)
      requires TreeOk(tree) && sync in tree
      ensures StateOk(Now()) && Now() == State(tree, main, sync, NULL_HASH, NULL_HASH, None, None)
    {
      this.tree, this.main, this.sync := tree, main, sync;
      pending, invalid, message, messagePending := NULL_HASH, NULL_HASH, None, None;
    }

    method Validate(h: Hash) returns (ok: bool)
      requires TreeOk(tree)
      modifies this`invalid
      ensures ok == IsNewer(old(Now()), h)
      ensures Now() == if ok then old(Now()) else Noted(old(Now()), h)
    {
      if sync !in tree || h !in tree {
        return false;
      }
      if tree[h].height <= tree[sync].height {
        if IsAncestor(tree, sync, h) { AncestorIsLower(tree, sync, h); }
        var at := TraceBack(tree, sync, tree[h].height);
        if at != h {
          invalid := h;
        }
        return false;
      }
      if IsAncestor(tree, h, sync) { AncestorIsLower(tree, h, sync); }
      var at := TraceBack(tree, h, tree[sync].height);
      if at != sync {
        invalid := h;
        return false;
      }
      return true;
    }

    method SwitchTo(h: Hash, o: Outcome) returns (ok: bool)
      modifies this`main, this`invalid
      ensures (Now(), ok) == Switched(old(Now()), h, o)
    {
      if h !in main {
        if !o.readOk {
          return false;
        }
        if !o.bestChainOk {
          invalid := h;
          return false;
        }
        main := o.newMain + {h};
      }
      return true;
    }

    method Process(m: Message, signed: bool, o: Outcome) returns (ok: bool)
      requires StateOk(Now())
      modifies this
      ensures (Now(), ok) == Processed(old(Now()), m, signed, o)
      ensures StateOk(Now())
      ensures ok ==> sync == m.checkpoint && sync in main && IsNewer(old(Now()), sync)
    {
      ghost var s := Now();
      StepMovesForward(s, Op.Process(m, signed, o));
      if !signed {
        return false;
      }
      if m.checkpoint !in tree {
        pending := m.checkpoint;
        messagePending := Some(m);
        return false;
      }
      var valid := Validate(m.checkpoint);
      if !valid {
        return false;
      }
      var switched := SwitchTo(m.checkpoint, o);
      if !switched || !o.writeOk {
        return false;
      }
      sync := m.checkpoint;
      message := Some(m);
      pending := NULL_HASH;
      messagePending := None;
      return true;
    }

    method AcceptPending(o: Outcome) returns (ok: bool)
      requires StateOk(Now())
      modifies this
      ensures (Now(), ok) == Accepted(old(Now()), o)
      ensures StateOk(Now())
      ensures ok ==> sync == old(pending) && sync in main && IsNewer(old(Now()), sync)
    {
      ghost var s := Now();
      StepMovesForward(s, Op.Accept(o));
      if pending == NULL_HASH || pending !in tree {
        return false;
      }
      var valid := Validate(pending);
      if !valid {
        pending := NULL_HASH;
        messagePending := None;
        return false;
      }
      var switched := SwitchTo(pending, o);
      if !switched || !o.writeOk {
        return false;
      }
      sync := pending;
      pending := NULL_HASH;
      message := messagePending;
      messagePending := None;
      return true;
    }

    method CheckSync(block: Hash, parent: Hash) returns (ok: bool)
      requires TreeOk(tree) && sync in tree && parent in tree
      ensures ok == Passes(tree, sync, block, parent)
    {
      var height := tree[parent].height + 1;
      if height > tree[sync].height {
        var at := TraceBack(tree, parent, tree[sync].height);
        if at != sync {
          return false;
        }
      }
      if height == tree[sync].height && block != sync {
        return false;
      }
      if height < tree[sync].height && block !in tree {
        return false;
      }
      return true;
    }
  }
}
