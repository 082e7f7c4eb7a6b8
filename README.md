# Transparency fixer for Neverwinter Nights tile models

`fixer.py` works on ASCII `.mdl` tile models. A tile model that declares the
animation node `node dummy <tile>a` and has no animation at all renders
transparent. The fix pass patches every such file: it inserts an eleven-line
dummy animation (`newanim tiledefault <tile>` … `doneanim tiledefault <tile>`)
directly above the model's closing line `donemodel <tile>`. The block is tagged
with the comment line `#DUMMY_ANIMATION_FIX`. The remove pass takes the block
out of every file that carries the tag. It checks each line of the block before
deleting it, and skips a file whose block was edited.

The model has these modules:

- `Wrappers`: `Option` and `Result`, which stand in for Python's `ValueError`.
- `Text`: Python's substring test, `list.index`, `str.endswith` and
  `name.split('.')[0]`.
- `Template`: the line templates and the block with the tile name filled in.
- `Patcher`: the detector, the marker test and the anchor lookup.
  - `add_dummy_animation` and `remove_dummy_animation` are methods over the
    line sequence. Each loops once per template line, just as the source does.
  - Each method is proved equal to a closed-form specification: `Patch` or
    `Unpatch`/`UnpatchAt`.
- `PatchProperties`: what the closed forms promise. This includes the round
  trip, the marker, no re-patching, and refusal of edited blocks.
- `Driver`: the folder filter and the two passes.
  - The folder listing and the file reader are parameters.
  - The files written are returned as a sequence of `Output`s.
  - The fix pass records whether an uncaught error stopped it.

The source's `content[idx - 1]` at `idx == 0` reads the last line of the file,
and `pop(idx - 1)` removes it. The model keeps this wrap-around exactly. So
`UnpatchAt` has two regimes:

- The anchor is at least eleven lines down: the block must sit directly above
  it.
- The anchor is nearer the top: the lines above the anchor must end the block,
  and the file's last lines must begin it.

`UnpatchWrapsAround` shows the second regime on a concrete file. A patched file
always has its anchor at least eleven lines down, so the round trip holds for
every file that has an anchor.

The block has eleven lines (`fixer.py:10-22`).

## Model

| member | source | states |
|---|---|---|
| Text.Contains | fixer.py:48 | the substring test is true exactly when `pat` occurs at some position of the line |
| Text.AnyContains | fixer.py:48 | `any(...)` is true exactly when some line contains `pat` |
| Text.IndexFrom | fixer.py:63 | a found index lies at or after the start position and holds the line looked for |
| Text.IndexFromFirst | fixer.py:63 | `None` means no line from the start position on equals `x`; a found index is the first one that does |
| Text.IndexOf | fixer.py:63-65 | `list.index` returns an index holding the line looked for |
| Text.IndexOfFirst | fixer.py:63-65 | `list.index` succeeds exactly when `x` is in the list, and returns its first occurrence |
| Text.EndsWith | fixer.py:32 | `endswith` is true exactly when the name is at least as long as the suffix and its last characters are the suffix's, one by one |
| Text.BaseName | fixer.py:107 | the base name is a prefix of the file name with no '.', and it stops at the first '.' |
| Text.BaseNameOfStem | fixer.py:107 | the base name of `<stem>.<ext>` is the stem when the stem holds no '.' |
| Template.Fill | fixer.py:57-60 | `format(tile_name=...)` returns a literal line unchanged, and puts the tile name between the two halves of a line with a placeholder, at the position the placeholder held |
| Template.Block | fixer.py:59-60 | the filled block has one line per template line, each the template line with the tile name substituted |
| Template.MarkerInBlock | fixer.py:24 | the marker is the unformatted second template line and is line 1 of every filled block |
| Template.BlockDeclaresAnimation | fixer.py:13 | the block's third line contains "newanim" |
| Template.LineIsNoAnchor | fixer.py:8-22 | no filled template line equals either form of the closing line, for any name |
| Template.BlockHasNoAnchor | fixer.py:8-22 | the filled block holds no closing line in either form |
| Patcher.NeedsFix | fixer.py:36-51 | true exactly when the exact line `node dummy <tile>a\n` is present and no line contains "newanim"; an empty file never needs the fix |
| Patcher.HasDummyAnimation | fixer.py:117-121 | true exactly when some line equals the marker comment line |
| Patcher.FindAnchor | fixer.py:62-65 | a found anchor is a line of the file equal to `donemodel <tile>` or `donemodel <tile>\n` |
| Patcher.FindAnchorSpec | fixer.py:62-65 | the lookup fails exactly when the file has no closing line in either form; otherwise it stops at the first exact form or, failing one, the first newline form |
| Patcher.AnchorAtFound | fixer.py:62-65 | only one index satisfies the lookup's description, and it is the one found |
| Patcher.AnchorKept | fixer.py:62-65 | lines put in front of the anchor that hold nothing found first leave the anchor line the one found |
| Patcher.Patch | fixer.py:53-69 | the closed form of the insert: it succeeds exactly when the anchor lookup does, fails only with `AnchorMissing`, and on success the lines above the anchor are kept, the eleven block lines follow, then the anchor and everything below it |
| Patcher.PrefixKeepsAnchor | fixer.py:59-67 | after `k` block lines are inserted above the anchor, the re-searched anchor is `k` lines lower |
| Patcher.InsertStep | fixer.py:67 | inserting block line `k` at the anchor index extends the inserted part of the block by one line |
| Patcher.AddDummyAnimation | fixer.py:53-69 | the insert loop yields the original lines with the whole block directly above the anchor, or fails with no anchor |
| Patcher.Unpatch | fixer.py:123-145 | the closed form of the remove: `AnchorMissing` exactly when the anchor lookup fails, otherwise `LineChanged` or a result eleven lines shorter |
| Patcher.UnpatchAt | fixer.py:135-143 | removal around the anchor at index `i` fails only with `LineChanged`; a success is as many lines shorter as the block has; with the anchor at least that many lines down it succeeds exactly when the block sits directly above it; nearer the top a success means the lines above the anchor end the block and the file's last lines begin it, as `content[idx - 1]` reads the last line at index 0 |
| Patcher.RemainingKeepsAnchor | fixer.py:135-138 | after `k` pops the re-searched anchor is `k` lines higher, or at index 0 once it has reached the top |
| Patcher.RemoveStepAbove | fixer.py:140-143 | while the anchor is not at the top, a match pops the line above it and extends the matched part, and a mismatch is a rejection |
| Patcher.RemoveStepBelow | fixer.py:140-143 | with the anchor at index 0, the line compared is the file's last line; a match pops it, a mismatch is a rejection |
| Patcher.RemoveStep | fixer.py:140-143 | one comparison against the filled block: a match keeps the loop state, a mismatch rejects the file |
| Patcher.RemoveDone | fixer.py:132-145 | when all eleven comparisons matched, what is left is the closed-form result |
| Patcher.RemoveDummyAnimation | fixer.py:123-145 | the remove loop yields the closed-form result: the lines without the block, or `AnchorMissing`, or `LineChanged` |
| PatchProperties.PatchFailsWithoutAnchor | fixer.py:62-65 | patching fails, always with `AnchorMissing`, exactly when the file has no closing line in either form |
| PatchProperties.PatchInsertsBlock | fixer.py:53-69 | with the anchor at `i`, the result is the lines above it, the block, then the rest; eleven lines longer; the anchor ends up eleven lines lower |
| PatchProperties.PatchMarksFile | fixer.py:109-121 | a patched file carries the marker comment and is no longer reported by the detector |
| PatchProperties.RoundTrip | fixer.py:53-69 | unpatching a patched file gives back exactly the original lines |
| PatchProperties.PatchNotIdempotent | fixer.py:53-69 | patching a patched file succeeds again and yields the lines above the anchor, two copies of the block, then the anchor and the rest; it is 22 lines longer than the original and differs from the first patch |
| PatchProperties.UnpatchFailsWithoutAnchor | fixer.py:135-138 | unpatching fails with `AnchorMissing` exactly when the file has no closing line in either form |
| PatchProperties.UnpatchAtRemoves | fixer.py:140-141 | a successful removal takes out exactly the block's lines, in either regime |
| PatchProperties.UnpatchRemovesBlock | fixer.py:123-145 | a successful unpatch is eleven lines shorter, and with the block it makes up the original lines as a multiset |
| PatchProperties.UnpatchClearsMarker | fixer.py:117-145 | a file that carries the marker once no longer carries it after a successful unpatch |
| PatchProperties.UnpatchThenPatch | fixer.py:123-145 | when the anchor is at least eleven lines down, patching the unpatched lines gives back the original file |
| PatchProperties.RejectsChangedLine | fixer.py:140-143 | a copy of the block above the anchor with one line changed is rejected with `LineChanged` |
| PatchProperties.TamperedBlockRejected | fixer.py:123-143 | replacing any one of the eleven block lines of a patched file by a different non-anchor line makes unpatching fail with `LineChanged` |
| PatchProperties.UnpatchWrapsAround | fixer.py:140-141 | with the anchor on the first line, a block at the end of the file below it is the one removed |
| Driver.MdlFilter | fixer.py:31-33 | a name is kept exactly when it is listed and ends in ".mdl" |
| Driver.MdlFiles | fixer.py:26-34 | the collecting loop yields the filtered listing in listing order |
| Driver.FixAction | fixer.py:102-113 | a file is written exactly when it is non-empty, reported by the detector and has an anchor; then with the patched lines, which carry the marker and are no longer reported; a reported file without an anchor crashes |
| Driver.UnfixAction | fixer.py:155-170 | a file is written exactly when it is non-empty, carries the marker and unpatches, and then with the unpatched lines; a marked file that fails to unpatch is skipped; nothing crashes; a written file is eleven lines shorter |
| Driver.FixAll | fixer.py:98-115 | every write is a listed file with its patched lines, and the pass stops exactly when some listed file crashes |
| Driver.AbortedStays | fixer.py:98-113 | after the crash nothing more is written: the pass result is the one at the crash |
| Driver.FixPass | fixer.py:94-115 | the fix pass over a folder listing gives the writes and stop of `FixAll` over its ".mdl" files |
| Driver.FixAllExtends | fixer.py:100-113 | looking at one more file never takes back a write: the earlier writes stay, in order |
| Driver.FixAllKeeps | fixer.py:100-113 | a write of the pass over the first files is a write of the whole pass |
| Driver.NoCrashNoAbort | fixer.py:100-113 | a pass over files none of which crashes does not stop |
| Driver.FixAllWritesNext | fixer.py:100-113 | a pass that reaches a file without having stopped writes it, with its patched lines, when the fix patches it |
| Driver.FixAllComplete | fixer.py:100-113 | every listed file the fix patches is written with its patched lines, unless the pass stopped before reaching it |
| Driver.FixAllWritesPatched | fixer.py:100-113 | a file the fix patches is written when neither it nor any file before it crashes |
| Driver.UnfixAll | fixer.py:151-172 | every write is a listed file with its unpatched lines |
| Driver.UnfixPass | fixer.py:147-172 | the remove pass over a folder listing gives the writes of `UnfixAll` over its ".mdl" files |
| Driver.UnfixAllComplete | fixer.py:153-170 | the remove pass wrote every listed file that unpatches, with its unpatched lines |
| Driver.FixThenUnfix | fixer.py:94-172 | the remove pass restores the original lines of a file the fix pass wrote |
| Driver.FixActionOnce | fixer.py:109-111 | the fix pass leaves alone a file it wrote, so the block is never inserted twice |

## Left out

- Folder access is not modelled. `os.listdir(IN_FOLDER)` is the `listing` parameter. Opening files under `./in/` and `./out/` is not modelled either: the passes return what they write instead of writing it.
- File reading is not modelled. `get_file_content` is the `read` parameter. A file that fails to decode reads as the empty list, as the source returns; decoding itself is not modelled.
- The diagnostic `print` lines are not modelled, because they affect no file.
- In-place list mutation is not modelled. The lists are values: `insert` and `pop` build new sequences. After a `ValueError` the source's partly edited list is dropped without being written, so nothing observable is lost. Aliasing is not modelled.
- `str.format` is modelled only as the substitution of the single `{tile_name}` placeholder that each template line has.
- The uncaught `ValueError` of the fix pass is not modelled as a program crash. It becomes `PassResult.aborted`, and the writes already made are kept.
- PatchProperties.TamperedBlockRejected: covers a replacement by a line that is not a closing line. A replacement by `donemodel <tile>` moves the anchor, and that case is not stated.
- PatchProperties.UnpatchThenPatch: is stated only for an anchor at least eleven lines down. Nearer the top the remover takes lines from the end of the file, and patching puts the block elsewhere.
