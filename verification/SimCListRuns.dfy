/** Every run of list operations: the list follows a plain sequence, step by step. */
module SimCListRuns {
  import opened ListModel
  import opened SimCList
  import opened SinglePrecision
  import SortModel
  import SimCListSort

  datatype Op =
    | Insert(data: Ptr, pos: nat)
    | Append(data: Ptr)
    | Prepend(data: Ptr)
    | Extract(pos: nat)
    | Delete(pos: nat)
    | DeleteRange(posstart: nat, posend: nat)
    | Clear
    | Sort(versus: int)
    | IterStart
    | IterNext
    | IterStop

  /** A plain sequence, whether an iteration freezes it, and the position of the iteration. */
  datatype Plain = Plain(contents: seq<Ptr>, iterating: bool, pos: nat)

  /** What a call returns: a code or an element. */
  datatype Reply = Code(r: int) | Data(p: Ptr)

  ghost function View(l: List): Plain
    reads l
  {
    Plain(l.contents, l.iterActive, l.iterPos)
  }

  /** The two calls the list does not survive: deleting everything by range, and a step of an
      iteration that has already gone behind the last element. */
  predicate Crashes(op: Op, a: Plain) {
    || (op.DeleteRange? && !a.iterating && a.contents != [] && op.posstart == 0 && op.posend == |a.contents| - 1)
    || (op.IterNext? && a.iterating && a.pos > |a.contents|)
  }

  /** What `op` returns on the plain sequence `a`. */
  function Answer(cmp: CmpOption, op: Op, a: Plain): Reply {
    var n := |a.contents|;
    match op
    case Insert(_, pos) => Code(if !a.iterating && pos <= n then 1 else -1)
    case Append(_) => Code(if a.iterating then -1 else 1)
    case Prepend(_) => Code(if a.iterating then -1 else 1)
    case Extract(pos) => Data(if !a.iterating && pos < n then a.contents[pos] else NULL)
    case Delete(pos) => Code(if !a.iterating && pos < n then 0 else -1)
    case DeleteRange(i, j) => Code(if !a.iterating && i <= j < n then 0 else -1)
    case Clear => Code(if a.iterating then -1 else 0)
    case Sort(_) => Code(if a.iterating || cmp.Unset? then -1 else 0)
    case IterStart => Code(if a.iterating then 0 else 1)
    case IterNext => Data(if a.iterating && a.pos < n then a.contents[a.pos] else NULL)
    case IterStop => Code(if a.iterating then 1 else 0)
  }

  /** What `op` may turn the plain sequence `a` into. */
  ghost predicate Step(cmp: CmpOption, op: Op, a: Plain, b: Plain)
  {
    match op
    case IterStart => b == if a.iterating then a else a.(iterating := true, pos := 0)
    case IterStop => b == if a.iterating then a.(iterating := false, pos := 0) else a
    case IterNext => b == if a.iterating then a.(pos := a.pos + 1) else a
    case _ => if a.iterating then b == a else b == a.(contents := b.contents) && Changes(cmp, op, a.contents, b.contents)
  }

  ghost predicate Changes(cmp: CmpOption, op: Op, c: seq<Ptr>, d: seq<Ptr>)
    requires !op.IterStart? && !op.IterStop? && !op.IterNext?
  {
    match op
    case Insert(data, pos) => d == if pos <= |c| then Inserted(c, pos, data) else c
    case Append(data) => d == c + [data]
    case Prepend(data) => d == [data] + c
    case Extract(pos) => d == if pos < |c| then Removed(c, pos) else c
    case Delete(pos) => d == if pos < |c| then Removed(c, pos) else c
    case DeleteRange(i, j) => d == if i <= j < |c| then c[..i] + c[j + 1..] else c
    case Clear => d == []
    case Sort(versus) =>
      if cmp.Unset? then d == c
      else
        && multiset(d) == multiset(c)
        && (versus > 0 ==> forall i, j :: 0 <= i < j < |d| ==> cmp.cmp(d[i], d[j]) >= 0)
        && (versus < 0 ==> forall i, j :: 0 <= i < j < |d| ==> cmp.cmp(d[i], d[j]) <= 0)
  }

  method Apply(l: List, op: Op) returns (crashed: bool, reply: Reply)
    requires l.Valid() && l.numels <= MAX_EXACT
    requires l.comparator.Set? ==> SortModel.Comparator(l.comparator.cmp)
    modifies l.Repr
    ensures crashed <==> Crashes(op, old(View(l)))
    ensures l.Remembers() && Conserved(l.allocd, l.chain, l.spare, l.freed, l.Repr)
    ensures !crashed ==> l.Valid() && fresh(l.Repr - old(l.Repr)) && l.comparator == old(l.comparator)
    ensures !crashed ==> Step(l.comparator, op, old(View(l)), View(l)) && reply == Answer(l.comparator, op, old(View(l)))
  {
    hide Chain, Holds, NoDup, MidOf, Conserved, List.Recruits, List.Discards, List.Pool;
    crashed := false;
    var r, data;
    match op
    case Sort(versus) =>
      AllInRepr(l.allocd, l.chain, l.spare, l.freed, l.Repr);
      r := SimCListSort.Sort(l, versus);
      reply := Code(r);
    case IterStart =>
      r := l.IteratorStart();
      reply := Code(r);
    case IterNext =>
      crashed, data := l.IteratorNext();
      reply := Data(data);
    case IterStop =>
      r := l.IteratorStop();
      reply := Code(r);
    case Insert(_, _) => crashed, reply := ApplyInsertion(l, op);
    case Append(_) => crashed, reply := ApplyInsertion(l, op);
    case Prepend(_) => crashed, reply := ApplyInsertion(l, op);
    case Extract(_) => crashed, reply := ApplyRemoval(l, op);
    case Delete(_) => crashed, reply := ApplyRemoval(l, op);
    case _ => crashed, reply := ApplyRangeRemoval(l, op);
  }

  method ApplyInsertion(l: List, op: Op) returns (crashed: bool, reply: Reply)
    requires l.Valid() && l.numels <= MAX_EXACT && (op.Insert? || op.Append? || op.Prepend?)
    modifies l.Repr
    ensures crashed <==> Crashes(op, old(View(l)))
    ensures l.Remembers() && Conserved(l.allocd, l.chain, l.spare, l.freed, l.Repr)
    ensures !crashed ==> l.Valid() && fresh(l.Repr - old(l.Repr)) && l.comparator == old(l.comparator)
    ensures !crashed ==> Step(l.comparator, op, old(View(l)), View(l)) && reply == Answer(l.comparator, op, old(View(l)))
  {
    hide Chain, Holds, NoDup, MidOf, Conserved, List.Recruits, List.Discards, List.Pool, Landing, Astray;
    crashed := false;
    var r;
    match op
    case Insert(data, pos) =>
      NeverAstray(pos - 1, l.numels);
      r := l.InsertAt(data, pos);
      reply := Code(r);
    case Append(data) =>
      r := l.Append(data);
      reply := Code(r);
    case Prepend(data) =>
      r := l.Prepend(data);
      reply := Code(r);
  }

  method ApplyRemoval(l: List, op: Op) returns (crashed: bool, reply: Reply)
    requires l.Valid() && l.numels <= MAX_EXACT && (op.Extract? || op.Delete?)
    modifies l.Repr
    ensures crashed <==> Crashes(op, old(View(l)))
    ensures l.Remembers() && Conserved(l.allocd, l.chain, l.spare, l.freed, l.Repr)
    ensures !crashed ==> l.Valid() && fresh(l.Repr - old(l.Repr)) && l.comparator == old(l.comparator)
    ensures !crashed ==> Step(l.comparator, op, old(View(l)), View(l)) && reply == Answer(l.comparator, op, old(View(l)))
  {
    hide Chain, Holds, NoDup, MidOf, Conserved, List.Recruits, List.Discards, List.Pool, Landing, Astray;
    crashed := false;
    var r, data;
    NeverAstray(op.pos, l.numels);
    match op
    case Extract(pos) =>
      data := l.ExtractAt(pos);
      reply := Data(data);
    case Delete(pos) =>
      r := l.DeleteAt(pos);
      reply := Code(r);
  }

  method ApplyRangeRemoval(l: List, op: Op) returns (crashed: bool, reply: Reply)
    requires l.Valid() && l.numels <= MAX_EXACT && (op.DeleteRange? || op.Clear?)
    modifies l.Repr
    ensures crashed <==> Crashes(op, old(View(l)))
    ensures l.Remembers() && Conserved(l.allocd, l.chain, l.spare, l.freed, l.Repr)
    ensures !crashed ==> l.Valid() && fresh(l.Repr - old(l.Repr)) && l.comparator == old(l.comparator)
    ensures !crashed ==> Step(l.comparator, op, old(View(l)), View(l)) && reply == Answer(l.comparator, op, old(View(l)))
  {
    hide Chain, Holds, NoDup, MidOf, Conserved, List.Recruits, List.Discards, List.Pool, Landing, Astray;
    crashed, reply := false, Code(0);
    match op
    case DeleteRange(i, j) =>
      var o := l.DeleteRange(i, j);
      if o.Done? { reply := Code(o.r); } else { crashed := true; }
    case Clear =>
      var r := l.Clear();
      reply := Code(r);
  }

  /** Neighbouring states of `trace` are related by the operations, in order, and every reply is the
      one the plain sequence gives. */
  ghost predicate Follows(cmp: CmpOption, ops: seq<Op>, trace: seq<Plain>, replies: seq<Reply>) {
    && 0 < |trace| == |replies| + 1 <= |ops| + 1
    && (forall i {:trigger ops[i]} :: 0 <= i < |replies| ==> Step(cmp, ops[i], trace[i], trace[i + 1]))
    && (forall i {:trigger replies[i]} :: 0 <= i < |replies| ==> replies[i] == Answer(cmp, ops[i], trace[i]))
  }

  /** Any sequence of operations, as long as the list holds at most MAX_EXACT elements: it follows the
      plain sequence throughout, replies included, and keeps the invariant, or stops at a call that
      crashes. In both cases every entry the list has had or been given since is still in exactly one
      place. */
  method Run(l: List, ops: seq<Op>) returns (ghost trace: seq<Plain>, replies: seq<Reply>, crashed: bool)
    requires l.Valid() && (l.comparator.Set? ==> SortModel.Comparator(l.comparator.cmp))
    modifies l.Repr
    ensures Follows(old(l.comparator), ops, trace, replies) && trace[0] == old(View(l))
    ensures var last := trace[|trace| - 1];
      && (crashed <==> |trace| <= |ops| && |last.contents| <= MAX_EXACT && Crashes(ops[|trace| - 1], last))
      && (!crashed ==> |trace| == |ops| + 1 || |last.contents| > MAX_EXACT)
      && (!crashed ==> l.Valid() && last == View(l))
    ensures l.Remembers() && Conserved(l.allocd, l.chain, l.spare, l.freed, l.Repr)
  {
    hide Chain, Holds, NoDup, MidOf, Conserved, Step, Crashes, Answer;
    trace, replies, crashed := [View(l)], [], false;
    var i := 0;
    while i < |ops| && !crashed && l.numels <= MAX_EXACT
      invariant 0 <= i <= |ops| && (!crashed ==> fresh(l.Repr - old(l.Repr)))
      invariant Follows(old(l.comparator), ops, trace, replies) && trace[0] == old(View(l))
      invariant !crashed ==> |trace| == i + 1 && trace[i] == View(l)
      invariant !crashed ==> l.Valid() && l.comparator == old(l.comparator)
      invariant crashed ==> |trace| == i && |trace[i - 1].contents| <= MAX_EXACT && Crashes(ops[i - 1], trace[i - 1])
      invariant l.Remembers() && Conserved(l.allocd, l.chain, l.spare, l.freed, l.Repr)
      decreases |ops| - i
    {
      var reply;
      crashed, reply := Apply(l, ops[i]);
      if !crashed { trace, replies := trace + [View(l)], replies + [reply]; }
      i := i + 1;
    }
  }
}
