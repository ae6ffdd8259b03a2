/**
 * pycc's `visitors.rangelen`: `for i in range(len(S))` whose body reads
 * `S[i]` becomes `for i in S`. The detector and the replacer are shared
 * with the reversed form (IndexLoops); this module holds RangeLenFinder's test.
 */
module RangeLenLoops {
  import opened Wrappers
  import opened Syntax
  import opened IndexLoops
  import opened Fixtures

  /**
   * RangeLenFinder's test as written: the callee's `.id` is read before
   * anything says it is a Name, and `args[0]` of each call before anything
   * says there is one.
   */
  function GuardAsWritten(f: Node): (r: Result<bool>)
    requires f.kind.For? && WellFormed(f)
  {
    var header :- WrittenHeader(f);
    if header then DetectLoop(RangeLen, f) else Ok(false)
  }

  /** The header checks as written, in the order the `and` chain reads them. */
  function WrittenHeader(f: Node): (r: Result<bool>)
    requires f.kind.For? && WellFormed(f)
  {
    var iter := f.kids[1];
    assert WellFormed(iter);
    if !iter.kind.Call? then Ok(false)
    else
      var callee :- IdOf(iter.kids[0]);
      if !EndsWith(callee, "range") || iter.kids[0].kind.ctx != Load then Ok(false)
      else
        var first :- Item(CallArgs(iter), 0);
        assert WellFormed(first);
        if !first.kind.Call? then Ok(false)
        else
          var lenName :- IdOf(first.kids[0]);
          if lenName != "len" then Ok(false)
          else
            var s :- Item(CallArgs(first), 0);
            Ok(s.kind.Name?)
  }

  /** The loop header `range(len(S))`: a Load callee whose name ends in `range`, first argument `len(S)` with S a Name. */
  predicate Shape(f: Node)
    requires f.kind.For? && WellFormed(f)
  {
    var iter := f.kids[1];
    assert WellFormed(iter);
    iter.kind.Call? && iter.kids[0].kind.Name? && EndsWith(iter.kids[0].kind.id, "range") &&
    iter.kids[0].kind.ctx == Load && iter.kind.nargs > 0 &&
    var first := iter.kids[1];
    assert WellFormed(first);
    first.kind.Call? && IsNamed(first.kids[0], "len") && first.kind.nargs > 0 && first.kids[1].kind.Name?
  }

  /**
   * RangeLenFinder's test as evidently intended: a loop of another shape is
   * not reported, and a loop of this shape is reported when the detector
   * finds `S[i]` in it.
   */
  function Guard(f: Node): (r: Result<bool>)
    requires f.kind.For? && WellFormed(f)
    ensures Shape(f) ==> Sequence(RangeLen, f.kids[1]).Ok? && Sequence(RangeLen, f.kids[1]).value.kind.Name?
    ensures !Shape(f) ==> r == Ok(false)
  {
    if Shape(f) then
      assert WellFormed(f.kids[1]) && WellFormed(f.kids[1].kids[1]);
      DetectLoop(RangeLen, f)
    else Ok(false)
  }

  /** The test as written and as intended differ only where the written one raises on a loop of another shape. */
  lemma GuardAsWrittenDiffers(f: Node)
    requires f.kind.For? && WellFormed(f)
    ensures GuardAsWritten(f) != Guard(f) ==> GuardAsWritten(f).Err? && Guard(f) == Ok(false)
  {
    WrittenHeaderShape(f);
  }

  /** The header checks as written pass exactly on loops of the intended shape. */
  lemma WrittenHeaderShape(f: Node)
    requires f.kind.For? && WellFormed(f)
    ensures WrittenHeader(f) == Ok(true) <==> Shape(f)
  {
    if Shape(f) {
      ShapePassesHeader(f);
    } else if WrittenHeader(f) == Ok(true) {
      HeaderMeansShape(f);
    }
  }

  lemma ShapePassesHeader(f: Node)
    requires f.kind.For? && WellFormed(f) && Shape(f)
    ensures WrittenHeader(f) == Ok(true)
  {
    var iter := f.kids[1];
    assert WellFormed(iter);
    assert CallArgs(iter)[0] == iter.kids[1];
    var first := iter.kids[1];
    assert WellFormed(first);
    assert CallArgs(first)[0] == first.kids[1];
  }

  lemma HeaderMeansShape(f: Node)
    requires f.kind.For? && WellFormed(f) && WrittenHeader(f) == Ok(true)
    ensures Shape(f)
  {
    var iter := f.kids[1];
    assert WellFormed(iter);
    assert iter.kind.Call? && iter.kind.nargs > 0;
    assert CallArgs(iter)[0] == iter.kids[1];
    var first := iter.kids[1];
    assert WellFormed(first);
    assert first.kind.Call? && first.kind.nargs > 0;
    assert CallArgs(first)[0] == first.kids[1];
  }

  /**
   * On a loop with no loop nested in it and a Name target, the intended test
   * accepts exactly the loops over `range(len(S))` in which `S[i]` occurs
   * outside any other subscript.
   */
  lemma GuardFinds(f: Node)
    requires f.kind.For? && WellFormed(f) && forall k :: 0 <= k < |f.kids| ==> NoFor(f.kids[k])
    requires f.kids[0].kind.Name?
    ensures Guard(f).Ok?
    ensures Guard(f).value <==>
      Shape(f) &&
      exists k :: 0 <= k < |f.kids| && HasAccess(f.kids[k], Some(f.kids[0].kind.id), Some(Sequence(RangeLen, f.kids[1]).value.kind.id))
  {
    assert WellFormed(f.kids[1]);
    if Shape(f) {
      assert Sequence(RangeLen, f.kids[1]).Ok? && Sequence(RangeLen, f.kids[1]).value.kind.Name?;
      DetectLoopFinds(RangeLen, f);
    }
  }

  // ----- the loop the test crashes on -----

  lemma KeysLoopRaises()
    ensures WellFormed(KeysLoop()) && GuardAsWritten(KeysLoop()) == Err(AttributeError)
  {
    assert WellFormed(KeysLoop().kids[1].kids[0]);
    assert WellFormed(KeysLoop().kids[1]);
  }

  lemma KeysLoopNotReported()
    ensures WellFormed(KeysLoop()) && Guard(KeysLoop()) == Ok(false)
  {
    assert WellFormed(KeysLoop().kids[1].kids[0]);
    assert WellFormed(KeysLoop().kids[1]);
  }
}
