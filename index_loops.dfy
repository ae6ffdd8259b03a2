/**
 * What pycc's `visitors.rangelen` and `visitors.reversedrange` share: the
 * IndexAccessDetector, which looks for `S[i]` in a loop over the indices of
 * S, and the replacers that turn such a loop into a loop over S itself. The
 * two modules differ only in where the loop header holds S.
 */
module IndexLoops {
  import opened Wrappers
  import opened Syntax

  /** `for i in range(len(S))` (rangelen) or `for i in range(len(S) - 1, -1, -1)` (reversedrange). */
  datatype Header = RangeLen | ReversedRange

  /** `s.endswith(suffix)` */
  predicate EndsWith(s: string, suffix: string) {
    |s| >= |suffix| && s[|s| - |suffix|..] == suffix
  }

  /** `b.left`: only a BinOp has one. */
  function LeftOf(b: Node): (r: Result<Node>)
    requires Shaped(b)
    ensures r.Ok? <==> b.kind.BinOp?
    ensures r.Ok? ==> r.value == b.kids[0]
    ensures r.Err? ==> r.error == AttributeError
  {
    if b.kind.BinOp? then Ok(b.kids[0]) else Err(AttributeError)
  }

  /**
   * The node a loop header hands to `len`, read as the code reads it:
   * `iter.args[0].args[0]` for RangeLen, `iter.args[0].left.args[0]` for
   * ReversedRange, each step raising AttributeError or IndexError.
   */
  function Sequence(h: Header, iter: Node): (r: Result<Node>)
    requires WellFormed(iter)
    ensures r.Err? ==> r.error == AttributeError || r.error == IndexError
    ensures r.Ok? && h == RangeLen ==>
      iter.kind.Call? && iter.kind.nargs > 0 && Shaped(iter.kids[1]) &&
      iter.kids[1].kind.Call? && iter.kids[1].kind.nargs > 0 &&
      r.value == iter.kids[1].kids[1]
    ensures r.Ok? && h == ReversedRange ==>
      iter.kind.Call? && iter.kind.nargs > 0 && Shaped(iter.kids[1]) && iter.kids[1].kind.BinOp? &&
      Shaped(iter.kids[1].kids[0]) && iter.kids[1].kids[0].kind.Call? && iter.kids[1].kids[0].kind.nargs > 0 &&
      r.value == iter.kids[1].kids[0].kids[1]
  {
    var args :- ArgsOf(iter);
    var first :- Item(args, 0);
    assert first == iter.kids[1] && WellFormed(first);
    var call :- if h == RangeLen then Ok(first) else LeftOf(first);
    assert WellFormed(call);
    var inner :- ArgsOf(call);
    Item(inner, 0)
  }

  // ----- IndexAccessDetector -----

  /** The detector's fields: the loop variable's id, the iterated name's id, and whether `S[i]` was seen. */
  datatype Detection = Detection(loopvar: Option<string>, itervar: Option<string>, found: bool)

  /** `visit_Subscript`'s test: s is `S[i]` with S the iterated name and i the loop variable. */
  predicate IndexAccess(s: Node, loopvar: Option<string>, itervar: Option<string>)
    requires s.kind.Subscript? && WellFormed(s)
  {
    assert WellFormed(s.kids[1]);
    s.kids[0].kind.Name? && Some(s.kids[0].kind.id) == itervar &&
    s.kids[1].kind.Index? && s.kids[1].kids[0].kind.Name? && Some(s.kids[1].kids[0].kind.id) == loopvar
  }

  /**
   * The detector's walk over n from state st, in pre-order: a For sets the
   * loop variable from its target's id and the iterated name from its header,
   * then is entered; a Subscript is tested and not entered; anything else is
   * entered.
   */
  function Detect(h: Header, n: Node, st: Detection): (r: Result<Detection>)
    requires WellFormed(n)
    decreases n, 1
  {
    if n.kind.For? then
      var loopvar :- IdOf(n.kids[0]);
      var s :- Sequence(h, n.kids[1]);
      var itervar :- IdOf(s);
      DetectIn(h, n, |n.kids|, Detection(Some(loopvar), Some(itervar), st.found))
    else if n.kind.Subscript? then
      Ok(if IndexAccess(n, st.loopvar, st.itervar) then st.(found := true) else st)
    else DetectIn(h, n, |n.kids|, st)
  }

  function DetectIn(h: Header, n: Node, i: nat, st: Detection): (r: Result<Detection>)
    requires WellFormed(n) && i <= |n.kids|
    decreases n, 0, i
  {
    if i == 0 then Ok(st)
    else
      var mid :- DetectIn(h, n, i - 1, st);
      Detect(h, n.kids[i - 1], mid)
  }

  /** `IndexAccessDetector().visit(f)` on a loop: whether the walk saw `S[i]`. */
  function DetectLoop(h: Header, f: Node): (r: Result<bool>)
    requires f.kind.For? && WellFormed(f)
  {
    var d :- Detect(h, f, Detection(None, None, false));
    Ok(d.found)
  }

  /** n holds, outside any other subscript, a subscript `S[i]` for these ids. */
  predicate HasAccess(n: Node, loopvar: Option<string>, itervar: Option<string>)
    requires WellFormed(n)
  {
    if n.kind.Subscript? then IndexAccess(n, loopvar, itervar)
    else exists k :: 0 <= k < |n.kids| && HasAccess(n.kids[k], loopvar, itervar)
  }

  /**
   * With no loop inside, the walk keeps both ids and sets the flag exactly
   * when it meets an `S[i]` not nested in another subscript; a flag already
   * set stays set.
   */
  lemma {:induction false} DetectNoFor(h: Header, n: Node, st: Detection)
    requires WellFormed(n) && NoFor(n)
    ensures Detect(h, n, st) == Ok(st.(found := st.found || HasAccess(n, st.loopvar, st.itervar)))
    decreases n, 1
  {
    if !n.kind.Subscript? {
      DetectInNoFor(h, n, |n.kids|, st);
    }
  }

  lemma {:induction false} DetectInNoFor(h: Header, n: Node, i: nat, st: Detection)
    requires WellFormed(n) && i <= |n.kids| && forall k :: 0 <= k < |n.kids| ==> NoFor(n.kids[k])
    ensures DetectIn(h, n, i, st) ==
      Ok(st.(found := st.found || exists k :: 0 <= k < i && HasAccess(n.kids[k], st.loopvar, st.itervar)))
    decreases n, 0, i
  {
    if i > 0 {
      DetectInNoFor(h, n, i - 1, st);
      var mid := DetectIn(h, n, i - 1, st).value;
      DetectNoFor(h, n.kids[i - 1], mid);
    }
  }

  /**
   * On a loop with no loop nested in it whose header has the expected shape,
   * the detector answers whether some `S[i]`, with i the loop target and S
   * the name the header passes to `len`, occurs in the loop outside any other
   * subscript.
   */
  lemma DetectLoopFinds(h: Header, f: Node)
    requires f.kind.For? && WellFormed(f) && forall k :: 0 <= k < |f.kids| ==> NoFor(f.kids[k])
    requires f.kids[0].kind.Name? && Sequence(h, f.kids[1]).Ok? && Sequence(h, f.kids[1]).value.kind.Name?
    ensures DetectLoop(h, f) ==
      Ok(exists k :: 0 <= k < |f.kids| && HasAccess(f.kids[k], Some(f.kids[0].kind.id), Some(Sequence(h, f.kids[1]).value.kind.id)))
  {
    var st := Detection(Some(f.kids[0].kind.id), Some(Sequence(h, f.kids[1]).value.kind.id), false);
    DetectInNoFor(h, f, |f.kids|, st);
  }

  class IndexAccessDetector {
    const header: Header
    var loopvar: Option<string>
    var itervar: Option<string>
    var found: bool

    constructor(header: Header)
      ensures this.header == header && loopvar == None && itervar == None && !found
    {
      this.header := header;
      loopvar := None;
      itervar := None;
      found := false;
    }

    function State(): Detection
      reads this
    {
      Detection(loopvar, itervar, found)
    }

    /** `visit(f)` on a loop: the flag after the walk, or the error raised. */
    method VisitFor(f: Node) returns (r: Result<bool>)
      requires f.kind.For? && WellFormed(f)
      modifies this
      ensures Detect(header, f, old(State())) == (if r.Ok? then Ok(State()) else Err(r.error))
      ensures r.Ok? ==> r.value == found
    {
      var v := Visit(f);
      if v.Err? {
        return Err(v.error);
      }
      r := Ok(found);
    }

    method Visit(n: Node) returns (r: Result<()>)
      requires WellFormed(n)
      modifies this
      ensures Detect(header, n, old(State())) == (if r.Ok? then Ok(State()) else Err(r.error))
      decreases n, 1
    {
      if n.kind.For? {
        var target := IdOf(n.kids[0]);
        if target.Err? {
          return Err(target.error);
        }
        loopvar := Some(target.value);
        var s := Sequence(header, n.kids[1]);
        if s.Err? {
          return Err(s.error);
        }
        var name := IdOf(s.value);
        if name.Err? {
          return Err(name.error);
        }
        itervar := Some(name.value);
      } else if n.kind.Subscript? {
        if IndexAccess(n, loopvar, itervar) {
          found := true;
        }
        return Ok(());
      }
      r := GenericVisit(n);
    }

    method GenericVisit(n: Node) returns (r: Result<()>)
      requires WellFormed(n)
      modifies this
      ensures DetectIn(header, n, |n.kids|, old(State())) == (if r.Ok? then Ok(State()) else Err(r.error))
      decreases n, 0
    {
      var i := 0;
      while i < |n.kids|
        invariant i <= |n.kids|
        invariant DetectIn(header, n, i, old(State())) == Ok(State())
      {
        var v := Visit(n.kids[i]);
        if v.Err? {
          DetectInFails(header, n, i + 1, |n.kids|, old(State()));
          return Err(v.error);
        }
        i := i + 1;
      }
      r := Ok(());
    }
  }

  /** Once the walk fails on a child, it fails the same way for every longer prefix. */
  lemma {:induction false} DetectInFails(h: Header, n: Node, i: nat, j: nat, st: Detection)
    requires WellFormed(n) && 0 < i <= j <= |n.kids| && DetectIn(h, n, i, st).Err?
    ensures DetectIn(h, n, j, st) == DetectIn(h, n, i, st)
    decreases j
  {
    if j > i {
      DetectInFails(h, n, i, j - 1, st);
    }
  }

  // ----- IterLoopReplacer and ReversedIterReplacer -----

  /** The replacer's fields: the current loop's target node and the node its header hands to `len`. */
  datatype Swap = Swap(loopvar: Option<Node>, itervar: Option<Node>)

  datatype Replaced = Replaced(node: Node, st: Swap)

  datatype KidsReplaced = KidsReplaced(kids: seq<Node>, st: Swap)

  /** `reversed`, as the reversed replacer names it: a Load Name with no location. */
  function ReversedName(): Node {
    Node(Name("reversed", Load), [], None)
  }

  /** The iter the replacer gives a loop whose header hands s to `len`, located at the old iter. */
  function NewIter(h: Header, s: Node, iter: Node): Node {
    match h
    case RangeLen => CopyLoc(s, iter)
    case ReversedRange => CopyLoc(Node(Call(1), [ReversedName(), s], None), iter)
  }

  /**
   * `visit_Subscript`'s test, read as the code reads it: when the subscripted
   * value is a Name, the iterated node's id is read (AttributeError when there
   * is none or it is not a Name), and when the index is a Name, the loop
   * target's id is read the same way.
   */
  function Matches(s: Node, st: Swap): (r: Result<bool>)
    requires s.kind.Subscript? && WellFormed(s)
    ensures r.Ok? && r.value ==> st.loopvar.Some? && st.loopvar.value.kind.Name?
    ensures r.Err? ==> r.error == AttributeError
  {
    assert WellFormed(s.kids[1]);
    if !s.kids[0].kind.Name? then Ok(false)
    else
      var itervar :- if st.itervar.None? then Err(AttributeError) else IdOf(st.itervar.value);
      if s.kids[0].kind.id != itervar || !s.kids[1].kind.Index? || !s.kids[1].kids[0].kind.Name? then Ok(false)
      else
        var loopvar :- if st.loopvar.None? then Err(AttributeError) else IdOf(st.loopvar.value);
        Ok(s.kids[1].kids[0].kind.id == loopvar)
  }

  /**
   * The replacer's visit of n, taken as located at loc, from state st: a For
   * records its target and the node its header hands to `len`, takes the new
   * iter and has its children visited, the new iter included; an `S[i]`
   * becomes the recorded target node; anything else has its children visited.
   */
  function ReplaceAt(h: Header, n: Node, loc: Option<Loc>, st: Swap): (r: Result<Replaced>)
    requires WellFormed(n)
    decreases n, 2, 0
  {
    if n.kind.For? then
      var s :- Sequence(h, n.kids[1]);
      var ks :- ReplaceKids(h, n, |n.kids|, Swap(Some(n.kids[0]), Some(s)), true);
      Ok(Replaced(Node(n.kind, ks.kids, loc), ks.st))
    else if n.kind.Subscript? then
      var hit :- Matches(n, st);
      if hit then Ok(Replaced(st.loopvar.value, st))
      else
        var ks :- ReplaceKids(h, n, |n.kids|, st, false);
        Ok(Replaced(Node(n.kind, ks.kids, loc), ks.st))
    else
      var ks :- ReplaceKids(h, n, |n.kids|, st, false);
      Ok(Replaced(Node(n.kind, ks.kids, loc), ks.st))
  }

  /** The replacer's visit of n where it stands. */
  function Replace(h: Header, n: Node, st: Swap): (r: Result<Replaced>)
    requires WellFormed(n)
    decreases n, 3, 0
  {
    ReplaceAt(h, n, n.loc, st)
  }

  /**
   * The visits of the first i children of n, in order, threading the state;
   * in a loop the replacer has just rewritten (`header`), child 1 is the new iter.
   */
  function ReplaceKids(h: Header, n: Node, i: nat, st: Swap, header: bool): (r: Result<KidsReplaced>)
    requires WellFormed(n) && i <= |n.kids|
    requires header ==> n.kind.For? && Sequence(h, n.kids[1]).Ok?
    ensures r.Ok? ==> |r.value.kids| == i
    decreases n, 1, i
  {
    if i == 0 then Ok(KidsReplaced([], st))
    else
      var front :- ReplaceKids(h, n, i - 1, st, header);
      var kid :- if i - 1 == 1 && header then ReplaceIter(h, n, front.st) else Replace(h, n.kids[i - 1], front.st);
      Ok(KidsReplaced(front.kids + [kid.node], kid.st))
  }

  /**
   * The visit of the new iter of loop f: for RangeLen it is the node handed
   * to `len` itself, moved to the old iter's location; for ReversedRange the
   * new Call is entered, its `reversed` name kept and that node visited.
   */
  function ReplaceIter(h: Header, f: Node, st: Swap): (r: Result<Replaced>)
    requires f.kind.For? && WellFormed(f) && Sequence(h, f.kids[1]).Ok?
    decreases f, 0, 0
  {
    var iter := f.kids[1];
    assert WellFormed(iter) && WellFormed(iter.kids[1]);
    match h
    case RangeLen =>
      var s := iter.kids[1].kids[1];
      ReplaceAt(h, s, CopyLoc(s, iter).loc, st)
    case ReversedRange =>
      assert WellFormed(iter.kids[1].kids[0]);
      var s := iter.kids[1].kids[0].kids[1];
      var inner :- Replace(h, s, st);
      Ok(Replaced(CopyLoc(Node(Call(1), [ReversedName(), inner.node], None), iter), inner.st))
  }

  /**
   * The rewrite of a loop body the replacer means: every `S[i]` with S named
   * `itervar` and i named like `loopvar` becomes `loopvar`, outermost first,
   * and everything else is kept with its children rewritten.
   */
  function SwapAll(n: Node, loopvar: Node, itervar: string): (r: Node)
    requires WellFormed(n) && loopvar.kind.Name?
  {
    if n.kind.Subscript? && IndexAccess(n, Some(loopvar.kind.id), Some(itervar)) then loopvar
    else n.(kids := seq(|n.kids|, k requires 0 <= k < |n.kids| => SwapAll(n.kids[k], loopvar, itervar)))
  }

  /**
   * With no loop inside and both recorded nodes Names, the stateful visit is
   * the stateless rewrite and leaves the state as it was.
   */
  lemma {:induction false} ReplaceNoFor(h: Header, n: Node, st: Swap)
    requires WellFormed(n) && NoFor(n)
    requires st.loopvar.Some? && st.loopvar.value.kind.Name? && st.itervar.Some? && st.itervar.value.kind.Name?
    ensures Replace(h, n, st) == Ok(Replaced(SwapAll(n, st.loopvar.value, st.itervar.value.kind.id), st))
    decreases n, 1
  {
    var lv, iv := st.loopvar.value, st.itervar.value.kind.id;
    if !(n.kind.Subscript? && IndexAccess(n, Some(lv.kind.id), Some(iv))) {
      ReplaceKidsNoFor(h, n, |n.kids|, st);
      var kids := seq(|n.kids|, k requires 0 <= k < |n.kids| => SwapAll(n.kids[k], lv, iv));
      assert kids[..|n.kids|] == kids;
    }
  }

  lemma {:induction false} ReplaceKidsNoFor(h: Header, n: Node, i: nat, st: Swap)
    requires WellFormed(n) && i <= |n.kids| && forall k :: 0 <= k < |n.kids| ==> NoFor(n.kids[k])
    requires st.loopvar.Some? && st.loopvar.value.kind.Name? && st.itervar.Some? && st.itervar.value.kind.Name?
    ensures ReplaceKids(h, n, i, st, false) == Ok(KidsReplaced(
      seq(|n.kids|, k requires 0 <= k < |n.kids| => SwapAll(n.kids[k], st.loopvar.value, st.itervar.value.kind.id))[..i], st))
    decreases n, 0, i
  {
    if i > 0 {
      ReplaceKidsNoFor(h, n, i - 1, st);
      ReplaceNoFor(h, n.kids[i - 1], st);
      var kids := seq(|n.kids|, k requires 0 <= k < |n.kids| => SwapAll(n.kids[k], st.loopvar.value, st.itervar.value.kind.id));
      assert kids[..i] == kids[..i - 1] + [kids[i - 1]];
    }
  }

  /**
   * A loop with no loop nested in it, a Name target and a header that hands
   * a Name S to `len`: it gets the new iter, every `S[i]` in its target, body
   * and else branch becomes the target node, and the replacer then holds
   * that loop's target and S.
   */
  lemma ReplaceLoop(h: Header, f: Node, st: Swap)
    requires f.kind.For? && WellFormed(f) && forall k :: 0 <= k < |f.kids| ==> NoFor(f.kids[k])
    requires f.kids[0].kind.Name? && Sequence(h, f.kids[1]).Ok? && Sequence(h, f.kids[1]).value.kind.Name?
    ensures var s := Sequence(h, f.kids[1]).value;
      Replace(h, f, st) == Ok(Replaced(
        f.(kids := seq(|f.kids|, k requires 0 <= k < |f.kids| =>
          if k == 1 then NewIter(h, s, f.kids[1]) else SwapAll(f.kids[k], f.kids[0], s.kind.id))),
        Swap(Some(f.kids[0]), Some(s))))
  {
    var s := Sequence(h, f.kids[1]).value;
    var st1 := Swap(Some(f.kids[0]), Some(s));
    var want := seq(|f.kids|, k requires 0 <= k < |f.kids| =>
      if k == 1 then NewIter(h, s, f.kids[1]) else SwapAll(f.kids[k], f.kids[0], s.kind.id));
    ReplaceLoopKids(h, f, |f.kids|, st1, want);
    assert want[..|f.kids|] == want;
  }

  lemma {:induction false} ReplaceLoopKids(h: Header, f: Node, i: nat, st: Swap, want: seq<Node>)
    requires f.kind.For? && WellFormed(f) && i <= |f.kids| && forall k :: 0 <= k < |f.kids| ==> NoFor(f.kids[k])
    requires f.kids[0].kind.Name? && Sequence(h, f.kids[1]).Ok? && Sequence(h, f.kids[1]).value.kind.Name?
    requires st == Swap(Some(f.kids[0]), Some(Sequence(h, f.kids[1]).value))
    requires |want| == |f.kids| && want[1] == NewIter(h, Sequence(h, f.kids[1]).value, f.kids[1])
    requires forall k :: 0 <= k < |f.kids| && k != 1 ==> want[k] == SwapAll(f.kids[k], f.kids[0], Sequence(h, f.kids[1]).value.kind.id)
    ensures ReplaceKids(h, f, i, st, true) == Ok(KidsReplaced(want[..i], st))
    decreases i
  {
    if i > 0 {
      ReplaceLoopKids(h, f, i - 1, st, want);
      assert WellFormed(f.kids[i - 1]);
      var s := Sequence(h, f.kids[1]).value;
      var x: Node;
      if i - 1 == 1 {
        x := NewIter(h, s, f.kids[1]);
        ReplaceIterName(h, f, st);
      } else {
        x := SwapAll(f.kids[i - 1], f.kids[0], s.kind.id);
        ReplaceNoFor(h, f.kids[i - 1], st);
      }
      ReplaceKidsStep(h, f, i, st, true, want[..i - 1], x);
      assert want[i - 1] == x;
      TakeSnoc(want, i);
    }
  }

  /** One more child: its visit's node goes after the others', with the state unchanged. */
  lemma ReplaceKidsStep(h: Header, n: Node, i: nat, st: Swap, header: bool, front: seq<Node>, x: Node)
    requires WellFormed(n) && 0 < i <= |n.kids|
    requires header ==> n.kind.For? && Sequence(h, n.kids[1]).Ok?
    requires ReplaceKids(h, n, i - 1, st, header) == Ok(KidsReplaced(front, st))
    requires (if i - 1 == 1 && header then ReplaceIter(h, n, st) else Replace(h, n.kids[i - 1], st)) == Ok(Replaced(x, st))
    ensures ReplaceKids(h, n, i, st, header) == Ok(KidsReplaced(front + [x], st))
  {
  }

  lemma TakeSnoc<T>(s: seq<T>, i: nat)
    requires 0 < i <= |s|
    ensures s[..i] == s[..i - 1] + [s[i - 1]]
  {
  }

  /** When the header hands a Name to `len`, visiting the new iter keeps it as built. */
  lemma ReplaceIterName(h: Header, f: Node, st: Swap)
    requires f.kind.For? && WellFormed(f) && Sequence(h, f.kids[1]).Ok? && Sequence(h, f.kids[1]).value.kind.Name?
    ensures ReplaceIter(h, f, st) == Ok(Replaced(NewIter(h, Sequence(h, f.kids[1]).value, f.kids[1]), st))
  {
    var iter := f.kids[1];
    assert WellFormed(iter);
    SequenceWellFormed(h, iter);
    var s := Sequence(h, iter).value;
    if h == RangeLen {
      NameReplaced(h, s, CopyLoc(s, iter).loc, st);
    } else {
      NameReplaced(h, s, s.loc, st);
    }
  }

  /** The node handed to `len` is a well-formed part of the header. */
  lemma SequenceWellFormed(h: Header, iter: Node)
    requires WellFormed(iter) && Sequence(h, iter).Ok?
    ensures WellFormed(Sequence(h, iter).value)
  {
    assert WellFormed(iter.kids[1]);
    if h == ReversedRange {
      assert WellFormed(iter.kids[1].kids[0]);
    }
  }

  /** Visiting a Name changes nothing but its location. */
  lemma NameReplaced(h: Header, s: Node, loc: Option<Loc>, st: Swap)
    requires WellFormed(s) && s.kind.Name?
    ensures ReplaceAt(h, s, loc, st) == Ok(Replaced(Node(s.kind, [], loc), st))
  {
    assert ReplaceKids(h, s, 0, st, false) == Ok(KidsReplaced([], st));
  }

  class IterReplacer {
    const header: Header
    var loopvar: Option<Node>
    var itervar: Option<Node>

    constructor(header: Header)
      ensures this.header == header && loopvar == None && itervar == None
    {
      this.header := header;
      loopvar := None;
      itervar := None;
    }

    function State(): Swap
      reads this
    {
      Swap(loopvar, itervar)
    }

    /** `visit(n)`: the rewritten tree and the fields after it, or the error raised. */
    method Visit(n: Node) returns (r: Result<Node>)
      requires WellFormed(n)
      modifies this
      ensures Replace(header, n, old(State())) == (if r.Ok? then Ok(Replaced(r.value, State())) else Err(r.error))
      decreases n, 3, 0
    {
      r := VisitAt(n, n.loc);
    }

    method VisitAt(n: Node, loc: Option<Loc>) returns (r: Result<Node>)
      requires WellFormed(n)
      modifies this
      ensures ReplaceAt(header, n, loc, old(State())) == (if r.Ok? then Ok(Replaced(r.value, State())) else Err(r.error))
      decreases n, 2, 0
    {
      var rewritten := false;
      if n.kind.For? {
        var s := Sequence(header, n.kids[1]);
        if s.Err? {
          return Err(s.error);
        }
        loopvar := Some(n.kids[0]);
        itervar := Some(s.value);
        rewritten := true;
      } else if n.kind.Subscript? {
        var hit := Matches(n, State());
        if hit.Err? {
          return Err(hit.error);
        }
        if hit.value {
          return Ok(loopvar.value);
        }
      }
      var kids := GenericVisit(n, rewritten);
      if kids.Err? {
        return Err(kids.error);
      }
      r := Ok(Node(n.kind, kids.value, loc));
    }

    method GenericVisit(n: Node, rewritten: bool) returns (r: Result<seq<Node>>)
      requires WellFormed(n)
      requires rewritten ==> n.kind.For? && Sequence(header, n.kids[1]).Ok?
      modifies this
      ensures ReplaceKids(header, n, |n.kids|, old(State()), rewritten) ==
        (if r.Ok? then Ok(KidsReplaced(r.value, State())) else Err(r.error))
      decreases n, 1, 0
    {
      var kids: seq<Node> := [];
      var i := 0;
      while i < |n.kids|
        invariant i <= |n.kids|
        invariant ReplaceKids(header, n, i, old(State()), rewritten) == Ok(KidsReplaced(kids, State()))
      {
        var kid: Result<Node>;
        if i == 1 && rewritten {
          kid := VisitIter(n);
        } else {
          kid := Visit(n.kids[i]);
        }
        if kid.Err? {
          ReplaceKidsFail(header, n, i + 1, |n.kids|, old(State()), rewritten);
          return Err(kid.error);
        }
        kids := kids + [kid.value];
        i := i + 1;
      }
      r := Ok(kids);
    }

    method VisitIter(f: Node) returns (r: Result<Node>)
      requires f.kind.For? && WellFormed(f) && Sequence(header, f.kids[1]).Ok?
      modifies this
      ensures ReplaceIter(header, f, old(State())) == (if r.Ok? then Ok(Replaced(r.value, State())) else Err(r.error))
      decreases f, 0, 0
    {
      var iter := f.kids[1];
      assert WellFormed(iter) && WellFormed(iter.kids[1]);
      if header == RangeLen {
        var s := iter.kids[1].kids[1];
        r := VisitAt(s, CopyLoc(s, iter).loc);
      } else {
        assert WellFormed(iter.kids[1].kids[0]);
        var inner := Visit(iter.kids[1].kids[0].kids[1]);
        if inner.Err? {
          return Err(inner.error);
        }
        r := Ok(CopyLoc(Node(Call(1), [ReversedName(), inner.value], None), iter));
      }
    }
  }

  /** Once a child's visit fails, the visit of every longer prefix fails the same way. */
  lemma {:induction false} ReplaceKidsFail(h: Header, n: Node, i: nat, j: nat, st: Swap, header: bool)
    requires WellFormed(n) && 0 < i <= j <= |n.kids|
    requires header ==> n.kind.For? && Sequence(h, n.kids[1]).Ok?
    requires ReplaceKids(h, n, i, st, header).Err?
    ensures ReplaceKids(h, n, j, st, header) == ReplaceKids(h, n, i, st, header)
    decreases j
  {
    if j > i {
      ReplaceKidsFail(h, n, i, j - 1, st, header);
    }
  }
}
