/**
 * The build script's patching of the LinearPartition sources
 * (`patch_linearpartition_files` in setup.py), as content-to-content
 * rewrites. A file's content is read in, and the patch either leaves the
 * file alone (`None`) or writes new content back (`Some(content)`).
 *
 *  - bpp.cpp: every `(!bpseq)` becomes `__mea_hook__`, unless the hook is
 *    already there.
 *  - LinearFoldEval.h: when the variable-length array `M1_energy` is
 *    declared, the two array declarations become zero-initialised
 *    `std::vector<long>` declarations and the two zeroing lines become a
 *    comment.
 *
 * The long patch texts are written as concatenations of short pieces; the
 * text they spell is exactly the literal of the build script.
 */
module SourcePatch {
  import opened PyStr

  /** The hook name that replaces the MEA test in bpp.cpp. */
  const MeaHook: string := "__mea_hook__"
  /** The MEA test in bpp.cpp that the hook replaces. */
  const BpseqTest: string := "(!bpseq)"

  /** Marks a LinearFoldEval.h that still declares its arrays by length. */
  const VlaGuard: string := "long M1_energy[seq_length]"
  /** The two variable-length array declarations. */
  const VlaDecls: string :=
    "long M1_energy[seq_length];" + "\n    " + "long multi_number_unpaired" + "[seq_length];"
  /** Their replacement: two zero-initialised vectors. */
  const VectorDecls: string :=
    "std::vector<long> M1_energy" + "(seq_length, 0);" + "\n    "
    + "std::vector<long> " + "multi_number_unpaired" + "(seq_length, 0);"
  /** The two lines that zeroed the arrays element by element. */
  const ZeroingLines: string :=
    "M1_energy[j] = 0; " + "// init multi of position j" + "\n        "
    + "multi_number_unpaired[j] = 0;"
  /** Their replacement: a comment. */
  const ZeroedNote: string := "// (vectors already " + "zero-initialized)"

  /** The content a file holds after a run that wrote `written` to it, or
      left it alone. */
  function Resulting(content: string, written: Option<string>): string {
    match written
    case None => content
    case Some(w) => w
  }

  // ---------------------------------------------------------------------------
  // bpp.cpp
  // ---------------------------------------------------------------------------

  /** The bpp.cpp patch: nothing is written when the hook is already present;
      otherwise the content is written back with every `(!bpseq)` replaced by
      the hook, everything else kept as it was, and no `(!bpseq)` left. */
  function PatchBppCpp(content: string): (written: Option<string>)
    ensures written.None? <==> Contains(content, MeaHook)
    ensures written.Some? ==> written.value == Join(Split(content, BpseqTest), MeaHook)
    ensures written.Some? ==> !Contains(written.value, BpseqTest)
    ensures written.Some? ==> (Contains(written.value, MeaHook) <==> Contains(content, BpseqTest))
  {
    if Contains(content, MeaHook) then None
    else
      var patched := Replace(content, BpseqTest, MeaHook);
      ReplaceIsJoinOfSplit(content, BpseqTest, MeaHook);
      HookIsolated();
      ReplaceRemovesPattern(content, BpseqTest, MeaHook, 0, 0);
      if Contains(content, BpseqTest) then
        ReplaceInsertsReplacement(content, BpseqTest, MeaHook);
        Some(patched)
      else
        ReplaceWithoutMatch(content, BpseqTest, MeaHook);
        Some(patched)
  }

  /** The hook shares no boundary character with `(!bpseq)`: its first
      character `_` is not in the pattern and the pattern's `(` is not in it. */
  lemma HookIsolated()
    ensures Isolated(BpseqTest, MeaHook, 0, 0)
  {
    assert MeaHook[0] == '_' && '_' !in BpseqTest;
    assert BpseqTest[0] == '(' && '(' !in MeaHook;
    ForeignCharacter(MeaHook, BpseqTest, 0);
  }

  /** Running the bpp.cpp patch a second time is harmless: it leaves the
      content as the first run left it. It writes nothing exactly when the
      first run found the hook or had a `(!bpseq)` to replace. */
  lemma BppPatchIdempotent(content: string)
    ensures var after := Resulting(content, PatchBppCpp(content));
            && Resulting(after, PatchBppCpp(after)) == after
            && (PatchBppCpp(after).None? <==> Contains(content, MeaHook) || Contains(content, BpseqTest))
  {
    var after := Resulting(content, PatchBppCpp(content));
    if !Contains(after, MeaHook) {
      assert !Contains(after, BpseqTest);
      ReplaceWithoutMatch(after, BpseqTest, MeaHook);
    }
  }

  // ---------------------------------------------------------------------------
  // LinearFoldEval.h
  // ---------------------------------------------------------------------------

  /** The LinearFoldEval.h patch: nothing is written unless the content
      declares `long M1_energy[seq_length]`; otherwise the declarations are
      replaced first and the zeroing lines second, everything else is kept,
      and neither the old declarations nor the zeroing lines are left. */
  function PatchEvalH(content: string): (written: Option<string>)
    ensures written.None? <==> !Contains(content, VlaGuard)
    ensures written.Some? ==>
              written.value ==
              Join(Split(Join(Split(content, VlaDecls), VectorDecls), ZeroingLines), ZeroedNote)
    ensures written.Some? ==>
              !Contains(written.value, VlaDecls) && !Contains(written.value, ZeroingLines)
  {
    if !Contains(content, VlaGuard) then None
    else
      var declared := Replace(content, VlaDecls, VectorDecls);
      var patched := Replace(declared, ZeroingLines, ZeroedNote);
      ReplaceIsJoinOfSplit(content, VlaDecls, VectorDecls);
      ReplaceIsJoinOfSplit(declared, ZeroingLines, ZeroedNote);
      VectorDeclsIsolated();
      NoteIsolatedFromDecls();
      NoteIsolatedFromZeroing();
      ReplaceRemovesPattern(content, VlaDecls, VectorDecls, 3, 101);
      ReplaceKeepsAbsent(declared, ZeroingLines, ZeroedNote, VlaDecls, 0, 36);
      ReplaceRemovesPattern(declared, ZeroingLines, ZeroedNote, 3, 36);
      Some(patched)
  }

  /** The characters of the old array declarations that the isolation
      arguments below rely on. */
  lemma VlaDeclsCharacters()
    ensures |VlaDecls| == 71
    ensures VlaDecls[0] == 'l' && VlaDecls[14] == '[' && VlaDecls[70] == ';'
    ensures ')' !in VlaDecls
  {
  }

  /** Two more characters the old array declarations lack. */
  lemma VlaDeclsLacks()
    ensures ':' !in VlaDecls && '/' !in VlaDecls
  {
  }

  /** The characters of the vector declarations that the isolation
      arguments below rely on. */
  lemma VectorDeclsCharacters()
    ensures |VectorDecls| == 103
    ensures VectorDecls[3] == ':' && VectorDecls[101] == ')'
    ensures VectorDecls[..3] == "std" && VectorDecls[102..] == ";"
    ensures '[' !in VectorDecls
  {
  }

  /** The characters of the zeroing lines that the isolation arguments below
      rely on. */
  lemma ZeroingCharacters()
    ensures |ZeroingLines| == 83
    ensures ZeroingLines[9] == '[' && ZeroingLines[82] == ';'
    ensures ')' !in ZeroingLines
  {
  }

  /** One more character the zeroing lines lack. */
  lemma ZeroingLacks()
    ensures '(' !in ZeroingLines
  {
  }

  /** The characters of the comment replacing the zeroing lines that the
      isolation arguments below rely on. */
  lemma ZeroedNoteCharacters()
    ensures |ZeroedNote| == 37
    ensures ZeroedNote[0] == '/' && ZeroedNote[3] == '(' && ZeroedNote[36] == ')'
    ensures ZeroedNote[..3] == "// " && '[' !in ZeroedNote
  {
  }

  /** The vector declarations cannot take part in an occurrence of the old
      array declarations: they hold `:` (at 3) and `)` (at 101), which the
      old declarations lack, they start with `std` and end with `;`, and they
      have no `[`. */
  lemma VectorDeclsIsolated()
    ensures Isolated(VlaDecls, VectorDecls, 3, 101)
  {
    VlaDeclsCharacters();
    VlaDeclsLacks();
    VectorDeclsCharacters();
    ForeignCharacter(VectorDecls, VlaDecls, 14);
  }

  /** The comment cannot take part in an occurrence of the old array
      declarations: it starts with `/` and ends with `)`, which they lack,
      and it has no `[`. */
  lemma NoteIsolatedFromDecls()
    ensures Isolated(VlaDecls, ZeroedNote, 0, 36)
  {
    VlaDeclsCharacters();
    VlaDeclsLacks();
    ZeroedNoteCharacters();
    ForeignCharacter(ZeroedNote, VlaDecls, 14);
  }

  /** The comment cannot take part in an occurrence of the zeroing lines:
      it holds `(` (at 3) and `)` (at 36), which they lack, it starts with
      `// ` while they end with `;`, and it has no `[`. */
  lemma NoteIsolatedFromZeroing()
    ensures Isolated(ZeroingLines, ZeroedNote, 3, 36)
  {
    ZeroingCharacters();
    ZeroingLacks();
    ZeroedNoteCharacters();
    ForeignCharacter(ZeroedNote, ZeroingLines, 9);
  }

  /** Running the LinearFoldEval.h patch a second time is harmless: if it
      writes at all, it writes back the content the first run left. */
  lemma EvalPatchIdempotent(content: string)
    ensures var after := Resulting(content, PatchEvalH(content));
            Resulting(after, PatchEvalH(after)) == after
  {
    var after := Resulting(content, PatchEvalH(content));
    if PatchEvalH(content).Some? && Contains(after, VlaGuard) {
      ReplaceWithoutMatch(after, VlaDecls, VectorDecls);
      ReplaceWithoutMatch(after, ZeroingLines, ZeroedNote);
    } else if Contains(after, VlaGuard) {
      assert false;
    }
  }

  // ---------------------------------------------------------------------------
  // The build step
  // ---------------------------------------------------------------------------

  /** `patch_linearpartition_files`, with the file system taken out: it
      receives bpp.cpp's content and LinearFoldEval.h's content (`None` when
      that file does not exist) and returns what it writes to each file
      (`None` when it leaves the file alone). `content` is rebound step by
      step as in the build script. */
  method PatchLinearPartitionFiles(bppCpp: string, evalH: Option<string>)
    returns (bppWritten: Option<string>, evalWritten: Option<string>)
    ensures bppWritten == PatchBppCpp(bppCpp)
    ensures evalH.None? ==> evalWritten.None?
    ensures evalH.Some? ==> evalWritten == PatchEvalH(evalH.value)
  {
    var content := bppCpp;
    bppWritten := None;
    if !Contains(content, MeaHook) {
      bppWritten := Some(Replace(content, BpseqTest, MeaHook));
    }

    evalWritten := None;
    if evalH.Some? {
      content := evalH.value;
      if Contains(content, VlaGuard) {
        content := Replace(content, VlaDecls, VectorDecls);
        content := Replace(content, ZeroingLines, ZeroedNote);
        evalWritten := Some(content);
      }
    }
  }
}
