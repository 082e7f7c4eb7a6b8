/**
 * The fixed line templates of the patcher: the animation-node line looked for
 * by the detector, the closing-marker line used as anchor, and the eleven-line
 * dummy animation block with its marker comment.
 */
module Template {
  import opened Text

  /** A line template with at most one `{tile_name}` placeholder. */
  datatype TemplateLine = Literal(text: string) | Slot(prefix: string, suffix: string)

  /** `template.format(tile_name=name)` for a single-placeholder template. */
  function Fill(t: TemplateLine, name: string): (r: string)
    ensures t.Literal? ==> r == t.text
    ensures t.Slot? ==> |r| == |t.prefix| + |name| + |t.suffix|
    ensures t.Slot? ==> r[..|t.prefix|] == t.prefix && r[|t.prefix|..|t.prefix| + |name|] == name
                        && r[|t.prefix| + |name|..] == t.suffix
  {
    match t
    case Literal(text) => text
    case Slot(prefix, suffix) => prefix + name + suffix
  }

  const AnimationNode: TemplateLine := Slot("node dummy ", "a\n")
  const EndNode: TemplateLine := Slot("donemodel ", "")

  /** The dummy animation block, top to bottom. */
  const DummyAnimation: seq<TemplateLine> := [
    Literal("\n"),
    Literal("#DUMMY_ANIMATION_FIX\n"),
    Slot("newanim tiledefault ", "\n"),
    Literal("  length 0.0\n"),
    Literal("  transtime 0.0\n"),
    Slot("  animroot ", "\n"),
    Slot("  node dummy ", "\n"),
    Literal("    parent NULL\n"),
    Literal("  endnode\n"),
    Slot("doneanim tiledefault ", "\n"),
    Literal("\n")
  ]

  /** The marker comment: the block's second line, the same for every name. */
  const DummyAnimationComment: string := "#DUMMY_ANIMATION_FIX\n"

  /** The line whose presence says the model declares an animation node. */
  function AnimationNodeLine(name: string): string
  {
    Fill(AnimationNode, name)
  }

  /** The closing-marker line, written without its line terminator. */
  function EndNodeLine(name: string): string
  {
    Fill(EndNode, name)
  }

  /** A closing-marker line in either line-terminator convention. */
  predicate IsAnchorLine(name: string, line: string)
  {
    line == EndNodeLine(name) || line == EndNodeLine(name) + "\n"
  }

  /** No line of `lines` is a closing-marker line in either form. */
  ghost predicate NoAnchorIn(name: string, lines: seq<string>)
  {
    forall j :: 0 <= j < |lines| ==> !IsAnchorLine(name, lines[j])
  }

  /** The block with `name` substituted into every line. */
  function Block(name: string): (b: seq<string>)
    ensures |b| == |DummyAnimation|
    ensures forall j :: 0 <= j < |b| ==> b[j] == Fill(DummyAnimation[j], name)
  {
    seq(|DummyAnimation|, j requires 0 <= j < |DummyAnimation| => Fill(DummyAnimation[j], name))
  }

  /** The marker comment is the unsubstituted second template line, and sits at index 1 of every block. */
  lemma MarkerInBlock(name: string)
    ensures DummyAnimation[1] == Literal(DummyAnimationComment)
    ensures Block(name)[1] == DummyAnimationComment
    ensures DummyAnimationComment in Block(name)
  {
  }

  /** The block's third line opens an animation, so it contains "newanim". */
  lemma BlockDeclaresAnimation(name: string)
    ensures Contains(Block(name)[2], "newanim")
  {
  }

  /** The `j`-th substituted template line differs from both closing-marker forms. */
  lemma LineIsNoAnchor(name: string, j: nat)
    requires j < |DummyAnimation|
    ensures !IsAnchorLine(name, Fill(DummyAnimation[j], name))
  {
    var line := Fill(DummyAnimation[j], name);
    var e := EndNodeLine(name);
    assert e[0] == 'd' && e[4] == 'm' && |e| >= 10;
    assert (e + "\n")[0] == 'd' && (e + "\n")[4] == 'm';
    if j == 0 || j == 10 {
      assert |line| == 1;
    } else if j == 9 {
      assert line[4] == 'a';
    } else {
      assert line[0] != 'd';
    }
  }

  /** No substituted block line is a closing-marker line, whatever the name. */
  lemma BlockHasNoAnchor(name: string)
    ensures NoAnchorIn(name, Block(name))
  {
    forall j | 0 <= j < |Block(name)|
      ensures !IsAnchorLine(name, Block(name)[j])
    {
      LineIsNoAnchor(name, j);
    }
  }
}
