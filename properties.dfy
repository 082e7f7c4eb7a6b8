/**
 * What patching and unpatching promise: where the block goes, that a patched
 * file is marked and no longer needs the fix, that unpatching undoes
 * patching, that a changed block line is refused, and what the remover's
 * wrap-around at index 0 does.
 */
module PatchProperties {
  import opened Wrappers
  import opened Text
  import opened Template
  import opened Patcher

  /** Patching fails exactly when no line is "donemodel <name>" or "donemodel <name>\n". */
  lemma PatchFailsWithoutAnchor(name: string, content: seq<string>)
    ensures Patch(name, content) == Err(AnchorMissing) <==> NoAnchorIn(name, content)
    ensures Patch(name, content).Err? ==> Patch(name, content).error == AnchorMissing
  {
    FindAnchorSpec(name, content);
  }

  /**
   * With the anchor at `i`, the block lands directly above it, the file grows
   * by the eleven block lines, and the anchor is then found eleven lines lower.
   */
  lemma PatchInsertsBlock(name: string, content: seq<string>, i: nat)
    requires AnchorAt(name, content, i)
    ensures Patch(name, content) == Ok(content[..i] + Block(name) + content[i..])
    ensures |Patch(name, content).value| == |content| + |DummyAnimation|
    ensures FindAnchor(name, Patch(name, content).value) == Some(i + |DummyAnimation|)
  {
    AnchorAtFound(name, content, i);
    BlockHasNoAnchor(name);
    PrefixKeepsAnchor(name, content, i, Block(name), |DummyAnimation|);
    assert Block(name)[..|DummyAnimation|] == Block(name);
  }

  /**
   * A patched file carries the marker comment and an animation, so the
   * detector no longer reports it.
   */
  lemma PatchMarksFile(name: string, content: seq<string>)
    requires Patch(name, content).Ok?
    ensures HasDummyAnimation(Patch(name, content).value)
    ensures !NeedsFix(name, Patch(name, content).value)
  {
    var i := FindAnchor(name, content).value;
    var r := Patch(name, content).value;
    MarkerInBlock(name);
    BlockDeclaresAnimation(name);
    assert r[i + 1] == Block(name)[1];
    assert r[i + 2] == Block(name)[2];
  }

  /** Unpatching a patched file gives back the original lines. */
  lemma RoundTrip(name: string, content: seq<string>)
    requires Patch(name, content).Ok?
    ensures Unpatch(name, Patch(name, content).value) == Ok(content)
  {
    var i := FindAnchor(name, content).value;
    var blk := Block(name);
    var r := Patch(name, content).value;
    FindAnchorSpec(name, content);
    PatchInsertsBlock(name, content, i);
    assert r[i + |blk| - |blk|..i + |blk|] == blk;
    assert r[..i + |blk| - |blk|] + r[i + |blk|..] == content;
  }

  /**
   * Patching twice inserts the block twice: the second block lands directly
   * above the first, so a second patch is not a no-op, which is why the
   * driver patches only files the detector reports.
   */
  lemma PatchNotIdempotent(name: string, content: seq<string>)
    requires Patch(name, content).Ok?
    ensures var i := FindAnchor(name, content).value;
            Patch(name, Patch(name, content).value) == Ok(content[..i] + Block(name) + Block(name) + content[i..])
    ensures |Patch(name, Patch(name, content).value).value| == |content| + 2 * |DummyAnimation|
    ensures Patch(name, Patch(name, content).value) != Patch(name, content)
  {
    var i := FindAnchor(name, content).value;
    var r := Patch(name, content).value;
    PatchedLayout(name, content);
    PatchInsertsBlock(name, r, i + |DummyAnimation|);
    assert r[..i + |DummyAnimation|] == content[..i] + Block(name);
    assert r[i + |DummyAnimation|..] == content[i..];
  }

  /** Unpatching fails for want of an anchor exactly when the file has none. */
  lemma UnpatchFailsWithoutAnchor(name: string, content: seq<string>)
    ensures Unpatch(name, content) == Err(AnchorMissing) <==> NoAnchorIn(name, content)
  {
    FindAnchorSpec(name, content);
  }

  /** Taking the middle `b` out of `a + b + c` leaves `a + c`: the lines of `b` and no others go. */
  lemma MiddleRemoved(a: seq<string>, b: seq<string>, c: seq<string>)
    ensures multiset(a + c) + multiset(b) == multiset(a + b + c)
  {
  }

  /** Removal around index `i` takes out exactly the lines of `blk`, wherever they sat. */
  lemma UnpatchAtRemoves(content: seq<string>, i: nat, blk: seq<string>)
    requires i < |content| && UnpatchAt(content, i, blk).Ok?
    ensures |UnpatchAt(content, i, blk).value| + |blk| == |content|
    ensures multiset(UnpatchAt(content, i, blk).value) + multiset(blk) == multiset(content)
  {
    var m := |blk|;
    var n := |content|;
    if i >= m {
      MiddleRemoved(content[..i - m], blk, content[i..]);
      assert content == content[..i - m] + blk + content[i..];
    } else {
      var q := n - (m - i);
      assert content == content[..i] + content[i..q] + content[q..];
      assert blk == content[q..] + content[..i];
    }
  }

  /**
   * A successful unpatch removes exactly the eleven block lines: the result
   * is eleven lines shorter and, together with the block, makes up the
   * original lines.
   */
  lemma UnpatchRemovesBlock(name: string, content: seq<string>)
    requires Unpatch(name, content).Ok?
    ensures |Unpatch(name, content).value| + |DummyAnimation| == |content|
    ensures multiset(Unpatch(name, content).value) + multiset(Block(name)) == multiset(content)
  {
    UnpatchAtRemoves(content, FindAnchor(name, content).value, Block(name));
  }

  /**
   * A file that carries the marker once no longer carries it once unpatched,
   * so the remove pass leaves no stray marker behind.
   */
  lemma UnpatchClearsMarker(name: string, content: seq<string>)
    requires Unpatch(name, content).Ok? && multiset(content)[DummyAnimationComment] == 1
    ensures !HasDummyAnimation(Unpatch(name, content).value)
  {
    UnpatchRemovesBlock(name, content);
    MarkerInBlock(name);
    assert multiset(Block(name))[DummyAnimationComment] >= 1;
    assert multiset(Unpatch(name, content).value)[DummyAnimationComment] == 0;
  }

  /**
   * When the anchor sits at least eleven lines down, a successful unpatch
   * has removed a block directly above it, and patching puts it back.
   */
  lemma UnpatchThenPatch(name: string, content: seq<string>)
    requires Unpatch(name, content).Ok?
    requires FindAnchor(name, content).value >= |DummyAnimation|
    ensures Patch(name, Unpatch(name, content).value) == Ok(content)
  {
    var i := FindAnchor(name, content).value;
    var m := |DummyAnimation|;
    RemainingKeepsAnchor(name, content, i, m);
    Reinsert(content, i - m, Block(name));
  }

  /** Putting back the `|blk|` lines that sat at `j` restores the lines. */
  lemma Reinsert(content: seq<string>, j: nat, blk: seq<string>)
    requires j + |blk| <= |content| && content[j..j + |blk|] == blk
    ensures var r := content[..j] + content[j + |blk|..];
            r[..j] + blk + r[j..] == content
  {
  }

  /** A patched file in which one block line is replaced by another, non-anchor line. */
  ghost predicate Tampered(name: string, content: seq<string>, p: nat, line: string)
  {
    && Patch(name, content).Ok?
    && FindAnchor(name, content).value <= p < FindAnchor(name, content).value + |DummyAnimation|
    && Patch(name, content).value[p] != line
    && !IsAnchorLine(name, line)
  }

  /** Replacing a non-anchor line by another non-anchor line leaves the anchor where it was. */
  lemma AnchorSurvivesEdit(name: string, c: seq<string>, i: nat, p: nat, line: string)
    requires AnchorAt(name, c, i) && p < |c| && p != i && !IsAnchorLine(name, line)
    requires !IsAnchorLine(name, c[p])
    ensures FindAnchor(name, c[p := line]) == Some(i)
  {
    AnchorAtFound(name, c[p := line], i);
  }

  /** Removal against `blk` refuses lines whose copy of `blk` above index `j + |blk|` has one line changed. */
  lemma RejectsChangedLine(c: seq<string>, j: nat, blk: seq<string>, p: nat, line: string)
    requires j + |blk| < |c| && c[j..j + |blk|] == blk
    requires j <= p < j + |blk| && c[p] != line
    ensures UnpatchAt(c[p := line], j + |blk|, blk) == Err(LineChanged)
  {
  }

  /** In a patched file the block sits just above the anchor, which the lookup stops at. */
  lemma PatchedLayout(name: string, content: seq<string>)
    requires Patch(name, content).Ok?
    ensures var i := FindAnchor(name, content).value;
            var r := Patch(name, content).value;
            && i + |DummyAnimation| < |r|
            && r[i..i + |DummyAnimation|] == Block(name)
            && AnchorAt(name, r, i + |DummyAnimation|)
  {
    var i := FindAnchor(name, content).value;
    var blk := Block(name);
    FindAnchorSpec(name, content);
    PatchInsertsBlock(name, content, i);
    var r := Patch(name, content).value;
    assert r == content[..i] + blk + content[i..];
    FindAnchorSpec(name, r);
  }

  /** A changed block line makes the remover refuse the file instead of deleting the edit. */
  lemma TamperedBlockRejected(name: string, content: seq<string>, p: nat, line: string)
    requires Tampered(name, content, p, line)
    ensures Unpatch(name, Patch(name, content).value[p := line]) == Err(LineChanged)
  {
    var i := FindAnchor(name, content).value;
    var blk := Block(name);
    var r := Patch(name, content).value;
    PatchedLayout(name, content);
    BlockHasNoAnchor(name);
    assert r[p] == blk[p - i] by {
      assert r[i..i + |blk|][p - i] == r[p];
    }
    AnchorSurvivesEdit(name, r, i + |blk|, p, line);
    RejectsChangedLine(r, i, blk, p, line);
  }

  /**
   * With the anchor on the first line, the source's `content[idx - 1]` reads
   * the last line, so a block that FOLLOWS the anchor at the end of the file
   * is removed.
   */
  lemma UnpatchWrapsAround(name: string)
    ensures Unpatch(name, [EndNodeLine(name)] + Block(name)) == Ok([EndNodeLine(name)])
  {
  }
}
