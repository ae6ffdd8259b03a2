/**
 * pycc's `visitors.reversedrange`: `for i in range(len(S) - 1, -1, -1)`
 * whose body reads `S[i]` becomes `for i in reversed(S)`. The detector and
 * the replacer are shared with rangelen (IndexLoops); this module holds
 * ReversedRangeFinder's test.
 */
module ReversedRangeLoops {
  import opened Wrappers
  import opened Syntax
  import opened IndexLoops
  import opened Fixtures

  /**
   * ReversedRangeFinder's test as written: the header checks, then the
   * detector when they all hold.
   */
  function GuardAsWritten(f: Node): (r: Result<bool>)
    requires f.kind.For? && WellFormed(f)
  {
    var header :- WrittenHeader(f);
    if header then DetectLoop(ReversedRange, f) else Ok(false)
  }

  /**
   * The header checks as written: the callee's `.id` is read before
   * anything says it is a Name, and `args[1]` and `args[2]` are read before
   * the argument count is checked.
   */
  function WrittenHeader(f: Node): (r: Result<bool>)
    requires f.kind.For? && WellFormed(f)
  {
    var iter := f.kids[1];
    assert WellFormed(iter);
    if !iter.kind.Call? then Ok(false)
    else
      var callee :- IdOf(iter.kids[0]);
      if !EndsWith(callee, "range") || iter.kids[0].kind.ctx != Load then Ok(false)
      else
        var args := CallArgs(iter);
        var a0 :- Item(args, 0);
        assert WellFormed(a0);
        if !a0.kind.BinOp? then Ok(false)
        else
          var a1 :- Item(args, 1);
          if !a1.kind.Num? then Ok(false)
          else
            var a2 :- Item(args, 2);
            if !a2.kind.Num? then Ok(false)
            else
              var left := a0.kids[0];
              assert WellFormed(left);
              if !left.kind.Call? || |args| != 3 then Ok(false)
              else
                var lenName :- IdOf(left.kids[0]);
                if lenName != "len" then Ok(false)
                else
                  var s :- Item(CallArgs(left), 0);
                  Ok(s.kind.Name? && a0.kind.op == Sub && a0.kids[1].kind.Num? && a0.kids[1].kind.n == 1 &&
                     a1.kind.n == -1 && a2.kind.n == -1)
  }

  /**
   * The loop header `range(len(S) - 1, -1, -1)`: a Load callee whose name
   * ends in `range` and exactly three arguments, the first `len(S) - 1` with
   * S a Name, the other two the number -1.
   */
  predicate Shape(f: Node)
    requires f.kind.For? && WellFormed(f)
  {
    var iter := f.kids[1];
    assert WellFormed(iter);
    iter.kind.Call? && iter.kids[0].kind.Name? && EndsWith(iter.kids[0].kind.id, "range") &&
    iter.kids[0].kind.ctx == Load && iter.kind.nargs == 3 &&
    var a0 := iter.kids[1];
    assert WellFormed(a0);
    a0.kind == BinOp(Sub) && a0.kids[1].kind == Num(1) &&
    iter.kids[2].kind == Num(-1) && iter.kids[3].kind == Num(-1) &&
    var left := a0.kids[0];
    assert WellFormed(left);
    left.kind.Call? && IsNamed(left.kids[0], "len") && left.kind.nargs > 0 && left.kids[1].kind.Name?
  }

  /**
   * ReversedRangeFinder's test as evidently intended: a loop of another
   * shape is not reported, and a loop of this shape is reported when the
   * detector finds `S[i]` in it.
   */
  function Guard(f: Node): (r: Result<bool>)
    requires f.kind.For? && WellFormed(f)
    ensures Shape(f) ==> Sequence(ReversedRange, f.kids[1]).Ok? && Sequence(ReversedRange, f.kids[1]).value.kind.Name?
    ensures !Shape(f) ==> r == Ok(false)
  {
    if Shape(f) then
      ShapeSequence(f);
      DetectLoop(ReversedRange, f)
    else Ok(false)
  }

  /** The test as written and as intended differ only where the written one raises on a loop of another shape. */
  lemma GuardAsWrittenDiffers(f: Node)
    requires f.kind.For? && WellFormed(f)
    ensures GuardAsWritten(f) != Guard(f) ==> GuardAsWritten(f).Err? && Guard(f) == Ok(false)
  {
    WrittenHeaderShape(f);
    if Shape(f) {
      assert WellFormed(f.kids[1]) && WellFormed(f.kids[1].kids[1]) && WellFormed(f.kids[1].kids[1].kids[0]);
    }
  }

  /** The header checks as written pass exactly on loops of the intended shape. */
  lemma WrittenHeaderShape(f: Node)
    requires f.kind.For? && WellFormed(f)
    ensures WrittenHeader(f) == Ok(true) <==> Shape(f)
  {
    if Shape(f) {
      ShapePassesHeader(f);
    } else if WrittenHeader(f) == Ok(true) {
      HeaderMeansShape(f);
    }
  }

  lemma ShapePassesHeader(f: Node)
    requires f.kind.For? && WellFormed(f) && Shape(f)
    ensures WrittenHeader(f) == Ok(true)
  {
    ShapeFacts(f);
    var iter := f.kids[1];
    CallArgsAt(iter, 0);
    CallArgsAt(iter, 1);
    CallArgsAt(iter, 2);
    CallArgsAt(iter.kids[1].kids[0], 0);
  }

  /** The parts of a loop of the intended shape, each well formed. */
  lemma ShapeFacts(f: Node)
    requires f.kind.For? && WellFormed(f) && Shape(f)
    ensures WellFormed(f.kids[1]) && f.kids[1].kind.Call? && f.kids[1].kind.nargs == 3 && |f.kids[1].kids| >= 4
    ensures f.kids[1].kids[0].kind.Name? && EndsWith(f.kids[1].kids[0].kind.id, "range") && f.kids[1].kids[0].kind.ctx == Load
    ensures var a0 := f.kids[1].kids[1];
      WellFormed(a0) && a0.kind == BinOp(Sub) && |a0.kids| == 2 && a0.kids[1].kind == Num(1) &&
      f.kids[1].kids[2].kind == Num(-1) && f.kids[1].kids[3].kind == Num(-1)
    ensures var left := f.kids[1].kids[1].kids[0];
      WellFormed(left) && left.kind.Call? && left.kind.nargs > 0 && |left.kids| > 1 &&
      IsNamed(left.kids[0], "len") && left.kids[1].kind.Name?
  {
    var iter := f.kids[1];
    assert WellFormed(iter);
    assert WellFormed(iter.kids[1]);
    assert WellFormed(iter.kids[1].kids[0]);
  }

  /** On a loop of the intended shape the iterated sequence is the Name S of `len(S)`. */
  lemma ShapeSequence(f: Node)
    requires f.kind.For? && WellFormed(f) && Shape(f)
    ensures WellFormed(f.kids[1])
    ensures Sequence(ReversedRange, f.kids[1]).Ok? && Sequence(ReversedRange, f.kids[1]).value.kind.Name?
  {
    ShapeFacts(f);
    CallArgsAt(f.kids[1], 0);
    CallArgsAt(f.kids[1].kids[1].kids[0], 0);
  }

  lemma HeaderMeansShape(f: Node)
    requires f.kind.For? && WellFormed(f) && WrittenHeader(f) == Ok(true)
    ensures Shape(f)
  {
    HeaderCallee(f);
    HeaderArgs(f);
    HeaderLen(f);
  }

  /** A passing header is a call of a Load name ending in `range`. */
  lemma HeaderCallee(f: Node)
    requires f.kind.For? && WellFormed(f) && WrittenHeader(f) == Ok(true)
    ensures WellFormed(f.kids[1]) && f.kids[1].kind.Call? && f.kids[1].kids[0].kind.Name?
    ensures EndsWith(f.kids[1].kids[0].kind.id, "range") && f.kids[1].kids[0].kind.ctx == Load
  {
    var iter := f.kids[1];
    assert WellFormed(iter);
    assert iter.kind.Call? && iter.kids[0].kind.Name?;
  }

  /** A passing header has three arguments: a BinOp, then two numbers. */
  lemma HeaderArgs(f: Node)
    requires f.kind.For? && WellFormed(f) && WrittenHeader(f) == Ok(true)
    ensures WellFormed(f.kids[1]) && f.kids[1].kind.Call? && f.kids[1].kind.nargs == 3 && |f.kids[1].kids| >= 4
    ensures f.kids[1].kids[1].kind.BinOp? && f.kids[1].kids[2].kind.Num? && f.kids[1].kids[3].kind.Num?
  {
    HeaderCallee(f);
    var iter := f.kids[1];
    assert Shaped(iter);
    var args := CallArgs(iter);
    assert |args| == 3;
    assert args == iter.kids[1..4];
  }

  /** The first argument of a passing header is `len(S) - 1` with S a Name. */
  lemma HeaderLen(f: Node)
    requires f.kind.For? && WellFormed(f) && WrittenHeader(f) == Ok(true)
    ensures WellFormed(f.kids[1]) && f.kids[1].kind.Call? && |f.kids[1].kids| >= 4
    ensures var a0 := f.kids[1].kids[1];
      a0.kind == BinOp(Sub) && |a0.kids| == 2 && a0.kids[1].kind == Num(1) &&
      f.kids[1].kids[2].kind == Num(-1) && f.kids[1].kids[3].kind == Num(-1)
    ensures var left := f.kids[1].kids[1].kids[0];
      left.kind.Call? && left.kind.nargs > 0 && |left.kids| > 1 && IsNamed(left.kids[0], "len") && left.kids[1].kind.Name?
  {
    HeaderArgs(f);
    var iter := f.kids[1];
    var args := CallArgs(iter);
    assert args == iter.kids[1..4];
    var a0 := iter.kids[1];
    assert WellFormed(a0);
    var left := a0.kids[0];
    assert WellFormed(left);
    assert left.kind.Call? && IsNamed(left.kids[0], "len") && left.kind.nargs > 0;
    assert CallArgs(left)[0] == left.kids[1];
  }

  /**
   * On a loop with no loop nested in it and a Name target, the intended test
   * accepts exactly the loops over `range(len(S) - 1, -1, -1)` in which
   * `S[i]` occurs outside any other subscript.
   */
  lemma GuardFinds(f: Node)
    requires f.kind.For? && WellFormed(f) && forall k :: 0 <= k < |f.kids| ==> NoFor(f.kids[k])
    requires f.kids[0].kind.Name?
    ensures Guard(f).Ok?
    ensures Guard(f).value <==>
      Shape(f) &&
      exists k :: 0 <= k < |f.kids| && HasAccess(f.kids[k], Some(f.kids[0].kind.id), Some(Sequence(ReversedRange, f.kids[1]).value.kind.id))
  {
    assert WellFormed(f.kids[1]);
    if Shape(f) {
      ShapeSequence(f);
      DetectLoopFinds(ReversedRange, f);
    }
  }

  // ----- the loops the test crashes on -----

  /** `for i in range(len(S) - 1): pass`: a BinOp first argument and no second one. */
  function ShortRangeLoop(): Node {
    var lenCall := Node(Call(1), [Leaf(Name("len", Load)), Leaf(Name("S", Load))], None);
    Node(For, [Leaf(Name("i", Store)),
               Node(Call(1), [Leaf(Name("range", Load)), Node(BinOp(Sub), [lenCall, Leaf(Num(1))], None)], None),
               Leaf(Other("Pass"))], None)
  }

  lemma KeysLoopRaises()
    ensures WellFormed(KeysLoop()) && GuardAsWritten(KeysLoop()) == Err(AttributeError)
  {
    assert WellFormed(KeysLoop().kids[1].kids[0]);
    assert WellFormed(KeysLoop().kids[1]);
  }

  lemma KeysLoopNotReported()
    ensures WellFormed(KeysLoop()) && Guard(KeysLoop()) == Ok(false)
  {
    assert WellFormed(KeysLoop().kids[1].kids[0]);
    assert WellFormed(KeysLoop().kids[1]);
  }

  lemma ShortRangeLoopShape()
    ensures WellFormed(ShortRangeLoop().kids[1]) && WellFormed(ShortRangeLoop())
  {
    var iter := ShortRangeLoop().kids[1];
    assert WellFormed(iter.kids[1].kids[0]);
    assert WellFormed(iter.kids[1]);
    assert WellFormed(iter);
  }

  lemma ShortRangeLoopRaises()
    ensures WellFormed(ShortRangeLoop()) && GuardAsWritten(ShortRangeLoop()) == Err(IndexError)
  {
    ShortRangeLoopShape();
    var iter := ShortRangeLoop().kids[1];
    assert CallArgs(iter) == [iter.kids[1]];
  }

  lemma ShortRangeLoopNotReported()
    ensures WellFormed(ShortRangeLoop()) && Guard(ShortRangeLoop()) == Ok(false)
  {
    ShortRangeLoopShape();
  }
}
