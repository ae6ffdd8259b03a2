/**
 * The string operations the import and registry code relies on, with
 * Python 2's semantics on '/'-separated paths: `os.path.split` and
 * `os.path.join` from posixpath, and `str.replace`, `str.split`,
 * `str.startswith`, `str.endswith` and `in` on strings.
 */
module PosixPath {
  import opened Wrappers

  predicate StartsWith(s: string, prefix: string) {
    |prefix| <= |s| && s[..|prefix|] == prefix
  }

  predicate EndsWith(s: string, suffix: string) {
    |suffix| <= |s| && s[|s| - |suffix|..] == suffix
  }

  /** sub occurs in s at index i. */
  predicate OccursAt(s: string, sub: string, i: nat) {
    i + |sub| <= |s| && s[i..i + |sub|] == sub
  }

  /** `sub in s`: sub occurs in s at some index. */
  predicate Contains(s: string, sub: string) {
    exists i: nat | i <= |s| :: OccursAt(s, sub, i)
  }

  /** str.replace for one character by another. */
  function ReplaceChar(s: string, a: char, b: char): (r: string)
    ensures |r| == |s|
    ensures forall i :: 0 <= i < |s| ==> r[i] == (if s[i] == a then b else s[i])
  {
    if s == [] then [] else ReplaceChar(s[..|s| - 1], a, b) + [if s[|s| - 1] == a then b else s[|s| - 1]]
  }

  /** The first index at or after `from` where `sub` (non-empty) occurs in s. */
  function FindFrom(s: string, sub: string, from: nat): (r: Option<nat>)
    requires |sub| > 0
    ensures r.Some? ==> from <= r.value && OccursAt(s, sub, r.value)
    ensures r.Some? ==> forall i: nat :: from <= i < r.value ==> !OccursAt(s, sub, i)
    ensures r.None? ==> forall i: nat :: from <= i ==> !OccursAt(s, sub, i)
    decreases |s| - from
  {
    if from + |sub| > |s| then None
    else if s[from..from + |sub|] == sub then Some(from)
    else FindFrom(s, sub, from + 1)
  }

  /** sub occurs in s at index i and nowhere before it. */
  predicate FirstAt(s: string, sub: string, i: nat) {
    OccursAt(s, sub, i) && forall k: nat :: k < i ==> !OccursAt(s, sub, k)
  }

  /**
   * piece is what `rest.split(sep)[0]` gives: a prefix of rest in which sep
   * does not start, followed by sep or by the end of rest.
   */
  predicate FirstPiece(rest: string, sep: string, piece: string) {
    StartsWith(rest, piece) && (forall k: nat :: k < |piece| ==> !OccursAt(rest, sep, k))
    && (|piece| == |rest| || OccursAt(rest, sep, |piece|))
  }

  /**
   * `s.split(sep)[1]`: the piece between the first and the second
   * occurrence of sep (or up to the end). An empty separator raises
   * ValueError; a separator that does not occur leaves one piece, so [1]
   * raises IndexError.
   */
  function SecondField(s: string, sep: string): (r: Result<string>)
    ensures |sep| == 0 ==> r == Err(ValueError)
    ensures |sep| > 0 ==> (r.Err? <==> !Contains(s, sep))
    ensures r.Err? ==> r.error == ValueError || r.error == IndexError
    ensures |sep| > 0 && r.Err? ==> r.error == IndexError
    ensures r.Ok? ==> exists i: nat :: FirstAt(s, sep, i) && FirstPiece(s[i + |sep|..], sep, r.value)
  {
    if |sep| == 0 then Err(ValueError)
    else
      match FindFrom(s, sep, 0)
      case None => Err(IndexError)
      case Some(i) =>
        assert FirstAt(s, sep, i);
        var rest := s[i + |sep|..];
        match FindFrom(rest, sep, 0)
        case None =>
          assert FirstPiece(rest, sep, rest) by {
            assert rest[..|rest|] == rest;
          }
          Ok(rest)
        case Some(j) =>
          assert FirstPiece(rest, sep, rest[..j]);
          Ok(rest[..j])
  }

  /** `s.split(sep, 1)[1]`: everything after the first occurrence of sep. */
  function AfterFirst(s: string, sep: string): (r: Result<string>)
    ensures |sep| == 0 ==> r == Err(ValueError)
    ensures |sep| > 0 ==> (r.Err? <==> !Contains(s, sep))
    ensures |sep| > 0 && StartsWith(s, sep) ==> r == Ok(s[|sep|..])
    ensures |sep| > 0 && r.Err? ==> r.error == IndexError
    ensures r.Ok? ==> exists i: nat :: FirstAt(s, sep, i) && r.value == s[i + |sep|..]
  {
    if |sep| == 0 then Err(ValueError)
    else
      match FindFrom(s, sep, 0)
      case None => Err(IndexError)
      case Some(i) =>
        assert FirstAt(s, sep, i);
        Ok(s[i + |sep|..])
  }

  /** One past the last '/' of s, or 0 when there is none. */
  function AfterLastSlash(s: string): (r: nat)
    ensures r <= |s|
    ensures r > 0 ==> s[r - 1] == '/'
    ensures forall i :: r <= i < |s| ==> s[i] != '/'
  {
    if s == [] then 0
    else if s[|s| - 1] == '/' then |s|
    else AfterLastSlash(s[..|s| - 1])
  }

  predicate AllSlashes(s: string) {
    forall i :: 0 <= i < |s| ==> s[i] == '/'
  }

  /** s without its trailing '/' characters (str.rstrip('/')). */
  function RStripSlashes(s: string): (r: string)
    ensures StartsWith(s, r) && AllSlashes(s[|r|..])
    ensures r == [] || r[|r| - 1] != '/'
  {
    if s == [] || s[|s| - 1] != '/' then s else RStripSlashes(s[..|s| - 1])
  }

  /**
   * os.path.split: the tail is what follows the last '/', the head what
   * precedes it, with trailing slashes removed unless the head is all slashes.
   */
  function Split(p: string): (r: (string, string))
    ensures NoSlash(r.1) && |r.0| + |r.1| <= |p|
  {
    var i := AfterLastSlash(p);
    var head := p[..i];
    var tail := p[i..];
    if head != [] && !AllSlashes(head) then (RStripSlashes(head), tail) else (head, tail)
  }

  /** The head of os.path.split is a prefix of the path and the tail its last component. */
  lemma SplitParts(p: string)
    ensures StartsWith(p, Split(p).0)
    ensures p == p[..AfterLastSlash(p)] + Split(p).1
  {
    var i := AfterLastSlash(p);
    var head := p[..i];
    if head != [] && !AllSlashes(head) {
      var r := RStripSlashes(head);
      assert p[..|r|] == head[..|r|];
    }
  }

  /** os.path.join(a, b): b if it is absolute, else a and b separated by one '/' (none when a is empty or ends in '/'). */
  function Join(a: string, b: string): (r: string)
    ensures StartsWith(b, "/") ==> r == b
    ensures !StartsWith(b, "/") && (a == [] || EndsWith(a, "/")) ==> r == a + b
    ensures !StartsWith(b, "/") && a != [] && !EndsWith(a, "/") ==> r == a + "/" + b
  {
    if StartsWith(b, "/") then b
    else if a == [] || EndsWith(a, "/") then a + b
    else a + "/" + b
  }

  /** A path that starts with '/' keeps its leading '/' through os.path.split's head. */
  lemma SplitKeepsRoot(p: string)
    requires StartsWith(p, "/")
    ensures StartsWith(Split(p).0, "/")
  {
    var i := AfterLastSlash(p);
    assert i > 0;
    var head := p[..i];
    assert head[0] == '/';
    if head != [] && !AllSlashes(head) {
      var r := RStripSlashes(head);
      assert r[0] == head[0];
    }
  }

  /** os.path.split("/") keeps "/" as the head: splitting stops at the root. */
  lemma SplitRoot()
    ensures Split("/").0 == "/"
  {
    assert AfterLastSlash("/") == 1;
    assert AllSlashes("/");
  }

  predicate NoSlash(s: string) {
    forall i :: 0 <= i < |s| ==> s[i] != '/'
  }

  lemma {:induction false} AfterLastSlashJoined(a: string, b: string)
    requires NoSlash(b)
    ensures AfterLastSlash(a + "/" + b) == |a| + 1
    decreases |b|
  {
    var s := a + "/" + b;
    if b != [] {
      assert s[..|s| - 1] == a + "/" + b[..|b| - 1];
      AfterLastSlashJoined(a, b[..|b| - 1]);
    }
  }

  /** os.path.split("a/b") is ("a", "b") for a last component b and a head a without trailing '/'. */
  lemma SplitJoined(a: string, b: string)
    requires NoSlash(b)
    requires a != [] && a[|a| - 1] != '/'
    ensures Split(a + "/" + b) == (a, b)
  {
    var s := a + "/" + b;
    AfterLastSlashJoined(a, b);
    assert s[..|a| + 1] == a + "/";
    assert s[|a| + 1..] == b;
    assert !AllSlashes(a + "/") by {
      assert (a + "/")[|a| - 1] != '/';
    }
    assert (a + "/")[..|a|] == a;
  }

  /** os.path.split("/b") is ("/", "b"). */
  lemma SplitTop(b: string)
    requires NoSlash(b)
    ensures Split("/" + b) == ("/", b)
  {
    AfterLastSlashJoined("", b);
    assert "" + "/" + b == "/" + b;
    assert ("/" + b)[..1] == "/";
    assert AllSlashes("/");
  }

  /** Path components: non-empty and free of '/'. */
  predicate Components(parts: seq<string>) {
    forall i :: 0 <= i < |parts| ==> parts[i] != [] && NoSlash(parts[i])
  }

  /** "/p1/p2/.../pn" for the components p1 .. pn. */
  function Segments(parts: seq<string>): (r: string)
    ensures parts != [] ==> |r| > 0 && r[0] == '/'
  {
    if parts == [] then [] else Segments(parts[..|parts| - 1]) + "/" + parts[|parts| - 1]
  }

  /** The absolute path with the given components; "/" for none. */
  function PathOf(parts: seq<string>): (r: string)
    ensures |r| > 0 && r[0] == '/'
  {
    if parts == [] then "/" else Segments(parts)
  }

  lemma {:induction false} SegmentsEnd(parts: seq<string>)
    requires parts != [] && Components(parts)
    ensures Segments(parts) != [] && Segments(parts)[|Segments(parts)| - 1] != '/'
  {
    var last := parts[|parts| - 1];
    var s := Segments(parts);
    assert s[|s| - 1] == last[|last| - 1];
  }

  /** os.path.split of an absolute path drops exactly its last component. */
  lemma SplitPath(parts: seq<string>)
    requires parts != [] && Components(parts)
    ensures Split(PathOf(parts)).0 == PathOf(parts[..|parts| - 1])
    ensures Split(PathOf(parts)).1 == parts[|parts| - 1]
  {
    var front := parts[..|parts| - 1];
    var last := parts[|parts| - 1];
    if front == [] {
      assert Segments(parts) == "" + "/" + last;
      assert "" + "/" + last == "/" + last;
      SplitTop(last);
    } else {
      SegmentsEnd(front);
      SplitJoined(Segments(front), last);
    }
  }

  /** os.path.join of an absolute path and a component appends the component. */
  lemma JoinPath(parts: seq<string>, c: string)
    requires Components(parts) && c != [] && NoSlash(c)
    ensures Join(PathOf(parts), c) == PathOf(parts + [c])
  {
    assert c[0] != '/';
    assert (parts + [c])[..|parts|] == parts;
    if parts == [] {
      assert [] + [c] == [c];
      assert Segments([c]) == "" + "/" + c;
    } else {
      SegmentsEnd(parts);
    }
  }
}
