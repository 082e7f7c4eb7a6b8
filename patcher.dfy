/**
 * The line-level patcher: the defect detector, the marker check, the anchor
 * lookup, and the insert and verified-remove loops over a file's lines.
 */
module Patcher {
  import opened Wrappers
  import opened Text
  import opened Template

  /** Why patching or unpatching stopped; the source raises `ValueError` for both. */
  datatype Failure = AnchorMissing | LineChanged

  /**
   * The defect: the exact animation-node line is present and no line
   * mentions "newanim" anywhere.
   */
  function NeedsFix(name: string, content: seq<string>): (r: bool)
    ensures r <==> AnimationNodeLine(name) in content
                   && forall j :: 0 <= j < |content| ==> !Contains(content[j], "newanim")
    ensures content == [] ==> !r
  {
    var hasAnimationNode := AnimationNodeLine(name) in content;
    var hasNoAnimations := !AnyContains(content, "newanim");
    hasAnimationNode && hasNoAnimations
  }

  /** The file carries the marker comment as one of its lines (exact line, not substring). */
  function HasDummyAnimation(content: seq<string>): (r: bool)
    ensures r <==> exists j :: 0 <= j < |content| && content[j] == DummyAnimationComment
  {
    DummyAnimationComment in content
  }

  /**
   * The anchor: the first "donemodel <name>" line or, failing any, the first
   * "donemodel <name>\n" line.
   */
  function FindAnchor(name: string, content: seq<string>): (r: Option<nat>)
    ensures r.Some? ==> r.value < |content| && IsAnchorLine(name, content[r.value])
  {
    match IndexOf(content, EndNodeLine(name))
    case Some(i) => Some(i)
    case None => IndexOf(content, EndNodeLine(name) + "\n")
  }

  /**
   * Index `i` is where the anchor lookup stops: an anchor line with no exact
   * "donemodel <name>" line above it; when it is the "\n" form, there is no
   * exact form anywhere and no "\n" form above it.
   */
  ghost predicate AnchorAt(name: string, c: seq<string>, i: nat)
  {
    var e := EndNodeLine(name);
    && i < |c| && IsAnchorLine(name, c[i])
    && (forall j :: 0 <= j < i ==> c[j] != e)
    && (c[i] != e ==> (forall j :: 0 <= j < i ==> c[j] != e + "\n") && (forall j :: i < j < |c| ==> c[j] != e))
  }

  /** The lookup fails exactly on anchor-free files, and otherwise stops where `AnchorAt` says. */
  lemma FindAnchorSpec(name: string, c: seq<string>)
    ensures FindAnchor(name, c).None? <==> NoAnchorIn(name, c)
    ensures FindAnchor(name, c).Some? ==> AnchorAt(name, c, FindAnchor(name, c).value)
  {
    var e := EndNodeLine(name);
    IndexOfFirst(c, e);
    IndexOfFirst(c, e + "\n");
  }

  /** `AnchorAt` holds of one index at most, the one the lookup finds. */
  lemma AnchorAtFound(name: string, c: seq<string>, i: nat)
    requires AnchorAt(name, c, i)
    ensures FindAnchor(name, c) == Some(i)
  {
    FindAnchorSpec(name, c);
  }

  /**
   * Lines `x` put in front of the anchor line and some of what follows it keep
   * that line the anchor, provided `x` holds no line the lookup would stop at
   * first.
   */
  lemma AnchorKept(name: string, c: seq<string>, i: nat, x: seq<string>, t: nat)
    requires AnchorAt(name, c, i) && i < t <= |c|
    requires forall j :: 0 <= j < |x| ==> x[j] != EndNodeLine(name)
    requires c[i] != EndNodeLine(name) ==> forall j :: 0 <= j < |x| ==> x[j] != EndNodeLine(name) + "\n"
    ensures FindAnchor(name, x + c[i..t]) == Some(|x|)
  {
    var d := x + c[i..t];
    forall j | |x| <= j < |d|
      ensures d[j] == c[i + j - |x|]
    {
    }
    AnchorAtFound(name, d, |x|);
  }

  /** The block inserted directly above the anchor, or the failure to find one. */
  function Patch(name: string, content: seq<string>): (r: Result<seq<string>, Failure>)
    ensures r.Ok? <==> FindAnchor(name, content).Some?
    ensures r.Err? ==> r.error == AnchorMissing
    ensures r.Ok? ==> |r.value| == |content| + |DummyAnimation|
    ensures r.Ok? ==> var i := FindAnchor(name, content).value;
                      && r.value[..i] == content[..i]
                      && r.value[i..i + |DummyAnimation|] == Block(name)
                      && r.value[i + |DummyAnimation|..] == content[i..]
  {
    match FindAnchor(name, content)
    case None => Err(AnchorMissing)
    case Some(i) => Ok(content[..i] + Block(name) + content[i..])
  }

  /**
   * The lines above the anchor followed by the first `k` lines of an
   * anchor-free block leave the anchor the line found, `k` lines lower.
   */
  lemma PrefixKeepsAnchor(name: string, content: seq<string>, i: nat, blk: seq<string>, k: nat)
    requires AnchorAt(name, content, i) && NoAnchorIn(name, blk) && k <= |blk|
    ensures FindAnchor(name, content[..i] + blk[..k] + content[i..]) == Some(i + k)
  {
    var x := content[..i] + blk[..k];
    forall j | 0 <= j < |x|
      ensures x[j] != EndNodeLine(name)
      ensures content[i] != EndNodeLine(name) ==> x[j] != EndNodeLine(name) + "\n"
    {
      if j >= i {
        assert x[j] == blk[j - i];
      }
    }
    AnchorKept(name, content, i, x, |content|);
    assert content[i..|content|] == content[i..];
  }

  /** The insert loop after `k` steps, the anchor of `content` being at index `i`. */
  ghost predicate AddState(content: seq<string>, i: nat, k: nat, blk: seq<string>, lines: seq<string>)
  {
    i <= |content| && k <= |blk| && lines == content[..i] + blk[..k] + content[i..]
  }

  /** Inserting line `k` directly above the anchor extends the inserted part by one line. */
  lemma InsertStep(content: seq<string>, i: nat, k: nat, blk: seq<string>, lines: seq<string>)
    requires AddState(content, i, k, blk, lines) && k < |blk|
    ensures i + k <= |lines|
    ensures AddState(content, i, k + 1, blk, lines[..i + k] + [blk[k]] + lines[i + k..])
  {
  }

  /**
   * Inserts the block one line at a time, looking the anchor up again before
   * every insert; fails before inserting anything when there is no anchor.
   */
  method AddDummyAnimation(name: string, content: seq<string>) returns (r: Result<seq<string>, Failure>)
    ensures r == Patch(name, content)
  {
    ghost var anchor := FindAnchor(name, content);
    ghost var i: nat := if anchor.Some? then anchor.value else 0;
    ghost var blk := Block(name);
    if anchor.Some? {
      FindAnchorSpec(name, content);
      BlockHasNoAnchor(name);
    }
    assert content[..i] + blk[..0] + content[i..] == content;
    var lines := content;
    var k := 0;
    while k < |DummyAnimation|
      invariant 0 <= k <= |DummyAnimation|
      invariant AddState(content, i, k, blk, lines)
      invariant anchor.None? ==> k == 0 && lines == content
    {
      var line := Fill(DummyAnimation[k], name);
      if anchor.Some? {
        PrefixKeepsAnchor(name, content, i, blk, k);
      }
      var found := FindAnchor(name, lines);
      if found.None? {
        return Err(AnchorMissing);
      }
      var idx := found.value;
      InsertStep(content, i, k, blk, lines);
      lines := lines[..idx] + [line] + lines[idx..];
      k := k + 1;
    }
    assert blk[..|blk|] == blk;
    return Ok(lines);
  }

  /**
   * The outcome of walking the block bottom-up from the anchor, when there is
   * one. Removal is verified line by line, so it succeeds or, at the first
   * line that differs, fails with `LineChanged`.
   */
  function Unpatch(name: string, content: seq<string>): (r: Result<seq<string>, Failure>)
    ensures r == Err(AnchorMissing) <==> FindAnchor(name, content).None?
    ensures r.Err? && FindAnchor(name, content).Some? ==> r.error == LineChanged
    ensures r.Ok? ==> |r.value| + |DummyAnimation| == |content|
  {
    match FindAnchor(name, content)
    case None => Err(AnchorMissing)
    case Some(i) => UnpatchAt(content, i, Block(name))
  }

  /**
   * Removal of `blk` around an anchor at index `i`. With `i >= |blk|`, the
   * lines directly above the anchor must be `blk`. With `i < |blk|`, the `i`
   * lines above it must be the end of `blk`, and because the source reads
   * `content[idx - 1]`, which at index 0 is the file's last line, the rest of
   * `blk` must end the file, below the anchor.
   */
  function UnpatchAt(content: seq<string>, i: nat, blk: seq<string>): (r: Result<seq<string>, Failure>)
    requires i < |content|
    ensures r.Err? ==> r.error == LineChanged
    ensures r.Ok? ==> |r.value| + |blk| == |content|
    ensures i >= |blk| ==> (r.Ok? <==> content[i - |blk|..i] == blk)
    ensures i < |blk| && r.Ok? ==> content[..i] == blk[|blk| - i..] && content[|content| - (|blk| - i)..] == blk[..|blk| - i]
  {
    var m := |blk|;
    var n := |content|;
    if i >= m then
      if content[i - m..i] == blk then Ok(content[..i - m] + content[i..]) else Err(LineChanged)
    else if n > m && content[..i] == blk[m - i..] && content[n - (m - i)..] == blk[..m - i] then
      Ok(content[i..n - (m - i)])
    else
      Err(LineChanged)
  }

  /**
   * What is left of `content` after `k` steps of the remove loop, the anchor
   * being at index `i`: first the lines directly above the anchor go, and once
   * the anchor is at index 0 the last lines of the file go.
   */
  ghost function Remaining(content: seq<string>, i: nat, k: nat): seq<string>
    requires i < |content|
    requires k > i ==> i < |content| - (k - i)
  {
    if k <= i then content[..i - k] + content[i..] else content[i..|content| - (k - i)]
  }

  /** The first `k` comparisons of the remove loop against `blk`, anchor at index `i`, all matched. */
  ghost predicate Matched(content: seq<string>, i: nat, k: nat, blk: seq<string>)
    requires i < |content|
  {
    var m := |blk|;
    var n := |content|;
    k <= m &&
    (k <= i ==> content[i - k..i] == blk[m - k..]) &&
    (k > i ==> i < n - (k - i) && content[..i] == blk[m - i..] && content[n - (k - i)..] == blk[m - k..m - i])
  }

  /** The anchor is where the remove loop expects it after `k` steps. */
  lemma RemainingKeepsAnchor(name: string, content: seq<string>, i: nat, k: nat)
    requires FindAnchor(name, content) == Some(i)
    requires k > i ==> i < |content| - (k - i)
    ensures FindAnchor(name, Remaining(content, i, k)) == Some(if k <= i then i - k else 0)
  {
    assert AnchorAt(name, content, i) by { FindAnchorSpec(name, content); }
    if k <= i {
      var x := content[..i - k];
      assert forall j :: 0 <= j < |x| ==> x[j] == content[j];
      AnchorKept(name, content, i, x, |content|);
      assert content[i..|content|] == content[i..];
    } else {
      AnchorKept(name, content, i, [], |content| - (k - i));
      assert [] + content[i..|content| - (k - i)] == content[i..|content| - (k - i)];
    }
  }

  /** Step `k < i` of the remove loop: the line compared is `content[i - k - 1]`, just above the anchor. */
  lemma RemoveStepAbove(content: seq<string>, i: nat, k: nat, blk: seq<string>)
    requires i < |content| && k < i && k < |blk| && Matched(content, i, k, blk)
    ensures var lines := Remaining(content, i, k);
            && lines[i - k - 1] == content[i - k - 1]
            && (blk[|blk| - 1 - k] == lines[i - k - 1] ==>
                  Matched(content, i, k + 1, blk)
                  && lines[..i - k - 1] + lines[i - k..] == Remaining(content, i, k + 1))
            && (blk[|blk| - 1 - k] != lines[i - k - 1] ==> UnpatchAt(content, i, blk) == Err(LineChanged))
  {
  }

  /**
   * Step `k >= i` of the remove loop: the anchor is at index 0, so the line
   * compared is the last one, which is the anchor itself once nothing else is
   * left; `blk` holds no line equal to the anchor line.
   */
  lemma RemoveStepBelow(content: seq<string>, i: nat, k: nat, blk: seq<string>)
    requires i < |content| && i <= k < |blk| && Matched(content, i, k, blk)
    requires forall j :: 0 <= j < |blk| ==> blk[j] != content[i]
    ensures var lines := Remaining(content, i, k);
            && lines != []
            && (blk[|blk| - 1 - k] == lines[|lines| - 1] ==>
                  i < |content| - (k + 1 - i)
                  && Matched(content, i, k + 1, blk)
                  && lines[..|lines| - 1] == Remaining(content, i, k + 1))
            && (blk[|blk| - 1 - k] != lines[|lines| - 1] ==> UnpatchAt(content, i, blk) == Err(LineChanged))
  {
    var m := |blk|;
    var n := |content|;
    var q := k - i;
    var lines := Remaining(content, i, k);
    assert lines == content[i..n - q];
    var line := blk[m - 1 - k];
    assert lines[|lines| - 1] == content[n - q - 1];
    if line == content[n - q - 1] {
      assert n - q - 1 != i;
      assert content[n - q - 1..] == [content[n - q - 1]] + content[n - q..];
      assert blk[m - k - 1..m - i] == [blk[m - k - 1]] + blk[m - k..m - i];
      assert lines[..|lines| - 1] == content[i..n - q - 1];
    } else if n > m {
      assert content[n - (m - i)..][m - i - q - 1] == content[n - q - 1];
      assert blk[..m - i][m - i - q - 1] == line;
    }
  }

  /** The remove loop after `k` matched steps, the anchor of `content` being at index `i`. */
  ghost predicate RemoveState(content: seq<string>, i: nat, k: nat, blk: seq<string>, lines: seq<string>)
  {
    i < |content| && Matched(content, i, k, blk) && lines == Remaining(content, i, k)
  }

  /**
   * Step `k` compares line `prev` (the source's `idx - 1`, the last line when
   * the anchor is at index 0): a match pops it and keeps the loop state, a
   * mismatch means the closed form rejects the file.
   */
  lemma RemoveStep(name: string, content: seq<string>, i: nat, k: nat, lines: seq<string>, prev: int)
    requires FindAnchor(name, content) == Some(i)
    requires RemoveState(content, i, k, Block(name), lines) && k < |DummyAnimation|
    requires prev == if k < i then i - k - 1 else |lines| - 1
    ensures 0 <= prev < |lines|
    ensures Fill(DummyAnimation[|DummyAnimation| - 1 - k], name) == lines[prev] ==>
              RemoveState(content, i, k + 1, Block(name), lines[..prev] + lines[prev + 1..])
    ensures Fill(DummyAnimation[|DummyAnimation| - 1 - k], name) != lines[prev] ==>
              UnpatchAt(content, i, Block(name)) == Err(LineChanged)
  {
    var blk := Block(name);
    BlockHasNoAnchor(name);
    assert forall j :: 0 <= j < |blk| ==> blk[j] != content[i];
    if k < i {
      RemoveStepAbove(content, i, k, blk);
    } else {
      RemoveStepBelow(content, i, k, blk);
      assert lines[..prev] + lines[prev + 1..] == lines[..|lines| - 1];
    }
  }

  /** After all comparisons matched, what is left is the closed-form result. */
  lemma RemoveDone(content: seq<string>, i: nat, blk: seq<string>, lines: seq<string>)
    requires RemoveState(content, i, |blk|, blk, lines)
    ensures UnpatchAt(content, i, blk) == Ok(lines)
  {
  }

  /**
   * Walks the block bottom-up; each step finds the anchor again, compares the
   * line above it with the expected line and pops it, or fails at once.
   */
  method RemoveDummyAnimation(name: string, content: seq<string>) returns (r: Result<seq<string>, Failure>)
    ensures r == Unpatch(name, content)
  {
    ghost var anchor := FindAnchor(name, content);
    ghost var i: nat := if anchor.Some? then anchor.value else 0;
    assert anchor.Some? ==> content[..i] + content[i..] == content;
    var lines := content;
    var k := 0;
    while k < |DummyAnimation|
      invariant 0 <= k <= |DummyAnimation|
      invariant anchor.None? ==> k == 0 && lines == content
      invariant anchor.Some? ==> RemoveState(content, i, k, Block(name), lines)
    {
      var line := Fill(DummyAnimation[|DummyAnimation| - 1 - k], name);
      if anchor.Some? {
        RemainingKeepsAnchor(name, content, i, k);
      }
      var found := FindAnchor(name, lines);
      if found.None? {
        return Err(AnchorMissing);
      }
      var idx := found.value;
      // the source reads content[idx - 1]: at index 0 that is the last line
      var prev := if idx == 0 then |lines| - 1 else idx - 1;
      if anchor.Some? {
        RemoveStep(name, content, i, k, lines, prev);
      }
      if line != lines[prev] {
        return Err(LineChanged);
      }
      var popped := lines[..prev] + lines[prev + 1..];
      assert anchor.Some? ==> RemoveState(content, i, k + 1, Block(name), popped);
      lines := popped;
      k := k + 1;
    }
    if anchor.Some? {
      RemoveDone(content, i, Block(name), lines);
    }
    return Ok(lines);
  }
}
