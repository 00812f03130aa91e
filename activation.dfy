/**
 * One hotkey activation, `on_activate` (grammar_llama/main.py:158-172), over
 * the shared clipboard. The copy and paste key chords (lines 102-107, 144-149)
 * are recorded as chords; what the focused application puts in the clipboard
 * when it receives the copy chord is a parameter, and so is the correction
 * service (`correct_grammar`, modelled as a function of the captured text).
 */
module Activation {
  import opened Wrappers
  import opened Config
  import opened Correction
  import opened Chunker

  /** A key chord sent to the focused application. A paste pastes the clipboard it carries. */
  datatype Chord = CopyChord(modifier: Modifier) | PasteChord(modifier: Modifier, text: string)

  /** The guard `response and response.corrected_text`: the text to apply, if any. */
  function TextToApply(reply: Option<Response>): (text: Option<string>)
    ensures text.Some? <==> reply.Some? && reply.value.correctedText != ""
    ensures text.Some? ==> text.value == reply.value.correctedText
  {
    match reply
    case None => None
    case Some(r) => if r.correctedText == "" then None else Some(r.correctedText)
  }

  /** The clipboard after the apply step, given the clipboard before it. */
  function ClipboardAfter(clipboard: string, reply: Option<Response>): (r: string)
    ensures TextToApply(reply).Some? ==> r == reply.value.correctedText
    ensures TextToApply(reply).None? ==> r == clipboard
  {
    match TextToApply(reply)
    case Some(text) => text
    case None => clipboard
  }

  /** Applying is a plain overwrite: applying the same reply again changes nothing. */
  lemma ApplyIdempotent(clipboard: string, reply: Option<Response>)
    ensures ClipboardAfter(ClipboardAfter(clipboard, reply), reply) == ClipboardAfter(clipboard, reply)
  {
  }

  /** A usable reply leaves the same clipboard whatever the clipboard held before. */
  lemma ApplyForgetsClipboard(c1: string, c2: string, reply: Option<Response>)
    requires TextToApply(reply).Some?
    ensures ClipboardAfter(c1, reply) == ClipboardAfter(c2, reply) != ""
  {
  }

  /** Corrected text made of whitespace only is still non-empty, so it is applied. */
  lemma BlankCorrectionIsApplied(reply: Option<Response>)
    requires reply.Some? && reply.value.correctedText != "" && AllSpace(reply.value.correctedText)
    ensures TextToApply(reply) == Some(reply.value.correctedText)
  {
  }

  /** A homophone fix: the clipboard ends holding the corrected sentence. */
  lemma HomophoneScenario(clipboard: string)
    ensures var reply := Some(Response("2", "They're going to the store.", "Fixed homophone.", "neutral"));
      && ValidResponse(reply.value)
      && ClipboardAfter(clipboard, reply) == "They're going to the store."
  {
  }

  /** A failed service call leaves the clipboard as it was. */
  lemma FailedServiceScenario(clipboard: string)
    ensures ClipboardAfter(clipboard, None) == clipboard
    ensures ClipboardAfter(clipboard, Some(Response("3", "", "", ""))) == clipboard
  {
  }

  /** The OS clipboard and the chords the tool has sent, on one platform. */
  class Desktop {
    const platform: string
    var clipboard: string
    var chords: seq<Chord>

    /** Every paste the tool issues pastes non-empty text. */
    ghost predicate Valid()
      reads this
    {
      forall i :: 0 <= i < |chords| && chords[i].PasteChord? ==> chords[i].text != ""
    }

    constructor (platform: string, clipboard: string)
      ensures this.platform == platform && this.clipboard == clipboard && chords == []
      ensures Valid()
    {
      this.platform := platform;
      this.clipboard := clipboard;
      chords := [];
    }

    /**
     * `copy_text_at_cursor`: sends the copy chord. `captured` is what the focused
     * application copied, `None` when it copied nothing.
     */
    method CopyTextAtCursor(captured: Option<string>)
      modifies this
      ensures chords == old(chords) + [CopyChord(ChordModifier(platform))]
      ensures clipboard == if captured.Some? then captured.value else old(clipboard)
    {
      chords := chords + [CopyChord(ChordModifier(platform))];
      if captured.Some? {
        clipboard := captured.value;
      }
    }

    /** `pyperclip.paste()`: reads the clipboard. */
    method Paste() returns (text: string)
      ensures text == clipboard
    {
      text := clipboard;
    }

    /** `pyperclip.copy(text)`: overwrites the clipboard. */
    method Copy(text: string)
      modifies this
      ensures clipboard == text && chords == old(chords)
    {
      clipboard := text;
    }

    /** `paste_text_at_cursor`: sends the paste chord, which pastes the current clipboard. */
    method PasteTextAtCursor()
      modifies this
      ensures chords == old(chords) + [PasteChord(ChordModifier(platform), clipboard)]
      ensures clipboard == old(clipboard)
    {
      chords := chords + [PasteChord(ChordModifier(platform), clipboard)];
    }

    /** Lines 166-172: copy the corrected text and paste it, or leave everything alone. */
    method ApplyCorrection(reply: Option<Response>) returns (applied: bool)
      requires Valid()
      modifies this
      ensures Valid()
      ensures applied <==> TextToApply(reply).Some?
      ensures clipboard == ClipboardAfter(old(clipboard), reply)
      ensures chords == old(chords) + if applied then [PasteChord(ChordModifier(platform), clipboard)] else []
    {
      if reply.Some? && reply.value.correctedText != "" {
        Copy(reply.value.correctedText);
        PasteTextAtCursor();
        applied := true;
      } else {
        applied := false;
      }
    }

    /**
     * `on_activate`: copy the selection, read it from the clipboard, ask the
     * service, then apply. The clipboard ends holding the corrected text when
     * the reply is usable and the captured text otherwise; the paste chord is
     * sent only in the first case.
     */
    method OnActivate(captured: Option<string>, correctGrammar: string -> Option<Response>)
      returns (original: string, applied: bool)
      requires Valid()
      modifies this
      ensures Valid()
      ensures original == if captured.Some? then captured.value else old(clipboard)
      ensures applied <==> TextToApply(correctGrammar(original)).Some?
      ensures clipboard == ClipboardAfter(original, correctGrammar(original))
      ensures chords == old(chords) + [CopyChord(ChordModifier(platform))]
                        + if applied then [PasteChord(ChordModifier(platform), clipboard)] else []
    {
      CopyTextAtCursor(captured);
      original := Paste();
      var response := correctGrammar(original);
      applied := ApplyCorrection(response);
    }
  }
}
