/**
 * The two passes over the input folder: the fix pass patches every model
 * file that needs it, the remove pass strips the block from every file that
 * carries the marker. The folder listing and the file reader are parameters;
 * what a pass writes is returned as a sequence of outputs.
 */
module Driver {
  import opened Wrappers
  import opened Text
  import opened Template
  import opened Patcher
  import opened PatchProperties

  /** One file written to the output folder, with the lines written. */
  datatype Output = Output(file: string, lines: seq<string>)

  /** What a pass does with one listed file. */
  datatype Action = Untouched | Written(lines: seq<string>) | Skipped | Crashed

  /** The files a pass wrote, in order, and whether an uncaught error stopped it. */
  datatype PassResult = PassResult(writes: seq<Output>, aborted: bool)

  /** The listing filtered down to the names ending in ".mdl", in listing order. */
  function MdlFilter(listing: seq<string>): (files: seq<string>)
    ensures forall f :: f in files <==> f in listing && EndsWith(f, ".mdl")
    ensures |files| <= |listing|
  {
    if listing == [] then []
    else
      var last := listing[|listing| - 1];
      var prefix := listing[..|listing| - 1];
      assert listing == prefix + [last];
      MdlFilter(prefix) + if EndsWith(last, ".mdl") then [last] else []
  }

  /** Collects the model files of a folder listing. */
  method MdlFiles(listing: seq<string>) returns (files: seq<string>)
    ensures files == MdlFilter(listing)
  {
    files := [];
    for i := 0 to |listing|
      invariant files == MdlFilter(listing[..i])
    {
      assert listing[..i + 1][..i] == listing[..i];
      if EndsWith(listing[i], ".mdl") {
        files := files + [listing[i]];
      }
    }
    assert listing[..|listing|] == listing;
  }

  /**
   * The fix pass on one file: an empty (or undecodable) file is left alone,
   * as is one the detector does not report; a reported file is patched, and
   * a reported file without an anchor stops the pass.
   */
  function FixAction(file: string, content: seq<string>): (a: Action)
    ensures a.Written? <==> content != [] && NeedsFix(BaseName(file), content) && !NoAnchorIn(BaseName(file), content)
    ensures a.Crashed? <==> content != [] && NeedsFix(BaseName(file), content) && NoAnchorIn(BaseName(file), content)
    ensures !a.Skipped?
    ensures a.Written? ==> Patch(BaseName(file), content) == Ok(a.lines)
                           && HasDummyAnimation(a.lines) && !NeedsFix(BaseName(file), a.lines)
  {
    var name := BaseName(file);
    if content == [] || !NeedsFix(name, content) then Untouched
    else
      PatchFailsWithoutAnchor(name, content);
      match Patch(name, content)
      case Ok(lines) => PatchMarksFile(name, content); Written(lines)
      case Err(_) => Crashed
  }

  /**
   * The remove pass on one file: an empty file or one without the marker is
   * left alone; otherwise the block is removed, and a file whose block does
   * not match (or that has no anchor) is skipped. Nothing stops the pass.
   */
  function UnfixAction(file: string, content: seq<string>): (a: Action)
    ensures a.Written? <==> content != [] && HasDummyAnimation(content) && Unpatch(BaseName(file), content).Ok?
    ensures a.Skipped? <==> content != [] && HasDummyAnimation(content) && Unpatch(BaseName(file), content).Err?
    ensures !a.Crashed?
    ensures a.Written? ==> Unpatch(BaseName(file), content) == Ok(a.lines)
    ensures a.Written? ==> |a.lines| + |DummyAnimation| == |content|
                           && multiset(a.lines) + multiset(Block(BaseName(file))) == multiset(content)
  {
    var name := BaseName(file);
    if content == [] || !HasDummyAnimation(content) then Untouched
    else
      match Unpatch(name, content)
      case Ok(lines) => UnpatchRemovesBlock(name, content); Written(lines)
      case Err(_) => Skipped
  }

  /** The fix pass over `files`, each read with `read`; it stops at the first crash. */
  function FixAll(files: seq<string>, read: string -> seq<string>): (r: PassResult)
    ensures |r.writes| <= |files|
    ensures forall k :: 0 <= k < |r.writes| ==>
              r.writes[k].file in files && FixAction(r.writes[k].file, read(r.writes[k].file)) == Written(r.writes[k].lines)
    ensures r.aborted <==> exists j :: 0 <= j < |files| && FixAction(files[j], read(files[j])) == Crashed
  {
    if files == [] then PassResult([], false)
    else
      var last := files[|files| - 1];
      var prefix := files[..|files| - 1];
      assert files == prefix + [last];
      var p := FixAll(prefix, read);
      if p.aborted then p
      else
        match FixAction(last, read(last))
        case Written(lines) => PassResult(p.writes + [Output(last, lines)], false)
        case Crashed => PassResult(p.writes, true)
        case _ => p
  }

  /** Once the pass has stopped on a prefix of the files, the rest are not looked at. */
  lemma {:induction false} AbortedStays(files: seq<string>, read: string -> seq<string>, j: nat)
    requires j <= |files| && FixAll(files[..j], read).aborted
    ensures FixAll(files, read) == FixAll(files[..j], read)
    decreases |files| - j
  {
    if j < |files| {
      var longer := files[..j + 1];
      assert longer[..j] == files[..j];
      assert FixAll(longer, read) == FixAll(files[..j], read);
      assert files[..j + 1][..j + 1] == longer;
      AbortedStays(files, read, j + 1);
    } else {
      assert files[..j] == files;
    }
  }

  /** One more file: the pass writes it, stops at it, or goes on unchanged. */
  lemma {:induction false} FixAllNext(files: seq<string>, read: string -> seq<string>, i: nat)
    requires i < |files| && !FixAll(files[..i], read).aborted
    ensures var a := FixAction(files[i], read(files[i]));
            var p := FixAll(files[..i], read);
            FixAll(files[..i + 1], read) ==
              if a.Written? then PassResult(p.writes + [Output(files[i], a.lines)], false)
              else if a.Crashed? then PassResult(p.writes, true)
              else p
  {
    assert files[..i + 1][..i] == files[..i];
  }

  /**
   * The fix pass: lists the model files, reads each, and writes the patched
   * lines of every file the detector reports; an anchor missing from a
   * reported file is an uncaught error that ends the pass.
   */
  method FixPass(listing: seq<string>, read: string -> seq<string>) returns (r: PassResult)
    ensures r == FixAll(MdlFilter(listing), read)
  {
    var files := MdlFiles(listing);
    var writes: seq<Output> := [];
    var i := 0;
    while i < |files|
      invariant 0 <= i <= |files|
      invariant FixAll(files[..i], read) == PassResult(writes, false)
    {
      var file := files[i];
      var content := read(file);
      FixAllNext(files, read, i);
      if content != [] {
        var name := BaseName(file);
        if NeedsFix(name, content) {
          var patched := AddDummyAnimation(name, content);
          if patched.Err? {
            AbortedStays(files, read, i + 1);
            return PassResult(writes, true);
          }
          assert FixAction(file, content) == Written(patched.value);
          writes := writes + [Output(file, patched.value)];
        }
      }
      i := i + 1;
    }
    assert files[..|files|] == files;
    return PassResult(writes, false);
  }

  /** The remove pass over `files`, each read with `read`; skipped files are not written. */
  function UnfixAll(files: seq<string>, read: string -> seq<string>): (writes: seq<Output>)
    ensures |writes| <= |files|
    ensures forall k :: 0 <= k < |writes| ==>
              writes[k].file in files && UnfixAction(writes[k].file, read(writes[k].file)) == Written(writes[k].lines)
  {
    if files == [] then []
    else
      var last := files[|files| - 1];
      var prefix := files[..|files| - 1];
      assert files == prefix + [last];
      var p := UnfixAll(prefix, read);
      match UnfixAction(last, read(last))
      case Written(lines) => p + [Output(last, lines)]
      case _ => p
  }

  /** One more file: the pass writes it or goes on unchanged. */
  lemma {:induction false} UnfixAllNext(files: seq<string>, read: string -> seq<string>, i: nat)
    requires i < |files|
    ensures var a := UnfixAction(files[i], read(files[i]));
            UnfixAll(files[..i + 1], read) ==
              if a.Written? then UnfixAll(files[..i], read) + [Output(files[i], a.lines)]
              else UnfixAll(files[..i], read)
  {
    assert files[..i + 1][..i] == files[..i];
  }

  /**
   * The remove pass: lists the model files, reads each, and writes every
   * marked file with its block removed; a file whose block was edited is
   * skipped and the pass goes on.
   */
  method UnfixPass(listing: seq<string>, read: string -> seq<string>) returns (writes: seq<Output>)
    ensures writes == UnfixAll(MdlFilter(listing), read)
  {
    var files := MdlFiles(listing);
    writes := [];
    for i := 0 to |files|
      invariant writes == UnfixAll(files[..i], read)
    {
      var file := files[i];
      var content := read(file);
      UnfixAllNext(files, read, i);
      if content != [] {
        var name := BaseName(file);
        if HasDummyAnimation(content) {
          var removed := RemoveDummyAnimation(name, content);
          if removed.Ok? {
            assert UnfixAction(file, content) == Written(removed.value);
            writes := writes + [Output(file, removed.value)];
          }
        }
      }
    }
    assert files[..|files|] == files;
  }

  /** A file the fix pass writes is restored to its original lines by the remove pass. */
  lemma FixThenUnfix(file: string, content: seq<string>)
    requires FixAction(file, content).Written?
    ensures UnfixAction(file, FixAction(file, content).lines) == Written(content)
  {
    var name := BaseName(file);
    RoundTrip(name, content);
  }

  /** A file the fix pass wrote is left alone by a second fix pass, so the block is never doubled. */
  lemma FixActionOnce(file: string, content: seq<string>)
    requires FixAction(file, content).Written?
    ensures FixAction(file, FixAction(file, content).lines) == Untouched
  {
  }

  /** No file before index `j` makes the fix pass crash. */
  ghost predicate NoCrashBefore(files: seq<string>, read: string -> seq<string>, j: nat)
    requires j <= |files|
  {
    forall q :: 0 <= q < j ==> !FixAction(files[q], read(files[q])).Crashed?
  }

  /** Looking at one more file never takes back a write: the earlier writes stay, in order. */
  lemma {:induction false} FixAllExtends(files: seq<string>, read: string -> seq<string>, n: nat)
    requires n + 1 == |files|
    ensures FixAll(files[..n], read).writes <= FixAll(files, read).writes
  {
  }

  /** A pass over files none of which crashes does not stop. */
  lemma {:induction false} NoCrashNoAbort(files: seq<string>, read: string -> seq<string>, j: nat)
    requires j <= |files| && NoCrashBefore(files, read, j)
    ensures !FixAll(files[..j], read).aborted
  {
    forall q | 0 <= q < j
      ensures FixAction(files[..j][q], read(files[..j][q])) != Crashed
    {
      assert files[..j][q] == files[q];
    }
  }

  /** A pass that reaches file `j` without having stopped writes it when the fix patches it. */
  lemma {:induction false} FixAllWritesNext(files: seq<string>, read: string -> seq<string>, j: nat)
    requires j < |files| && !FixAll(files[..j], read).aborted
    requires FixAction(files[j], read(files[j])).Written?
    ensures Output(files[j], FixAction(files[j], read(files[j])).lines) in FixAll(files[..j + 1], read).writes
  {
    FixAllNext(files, read, j);
    var w := FixAll(files[..j + 1], read).writes;
    assert w[|w| - 1] == Output(files[j], FixAction(files[j], read(files[j])).lines);
  }

  /** A write of the pass over a prefix of the files is also a write of the whole pass. */
  lemma {:induction false} FixAllKeeps(files: seq<string>, read: string -> seq<string>, m: nat, o: Output)
    requires m <= |files| && o in FixAll(files[..m], read).writes
    ensures o in FixAll(files, read).writes
    decreases |files| - m
  {
    if m < |files| {
      var longer := files[..m + 1];
      assert longer[..m] == files[..m];
      FixAllExtends(longer, read, m);
      FixAllKeeps(files, read, m + 1, o);
    } else {
      assert files[..m] == files;
    }
  }

  /**
   * The fix pass writes every listed file it patches, unless it stopped
   * before reaching that file.
   */
  lemma {:induction false} FixAllComplete(files: seq<string>, read: string -> seq<string>, j: nat)
    requires j < |files| && !FixAll(files[..j], read).aborted
    requires FixAction(files[j], read(files[j])).Written?
    ensures Output(files[j], FixAction(files[j], read(files[j])).lines) in FixAll(files, read).writes
  {
    FixAllWritesNext(files, read, j);
    FixAllKeeps(files, read, j + 1, Output(files[j], FixAction(files[j], read(files[j])).lines));
  }

  /** A file the fix patches is written when neither it nor any file before it crashed. */
  lemma {:induction false} FixAllWritesPatched(files: seq<string>, read: string -> seq<string>, j: nat)
    requires j < |files| && NoCrashBefore(files, read, j)
    requires FixAction(files[j], read(files[j])).Written?
    ensures Output(files[j], FixAction(files[j], read(files[j])).lines) in FixAll(files, read).writes
  {
    NoCrashNoAbort(files, read, j);
    FixAllComplete(files, read, j);
  }

  /** The remove pass wrote every listed file it could strip. */
  lemma {:induction false} UnfixAllComplete(files: seq<string>, read: string -> seq<string>, j: nat)
    requires j < |files|
    requires UnfixAction(files[j], read(files[j])).Written?
    ensures Output(files[j], UnfixAction(files[j], read(files[j])).lines) in UnfixAll(files, read)
  {
    var last := files[|files| - 1];
    var prefix := files[..|files| - 1];
    assert files == prefix + [last];
    if j < |files| - 1 {
      assert prefix[j] == files[j];
      UnfixAllComplete(prefix, read, j);
    }
  }
}
