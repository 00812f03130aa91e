/**
 * Configuration selection (grammar_llama/main.py:14-24, 30-45, 57-65).
 * An environment variable is an `Option<string>`: `None` when unset. Python's
 * `x if x else d` treats both `None` and `""` as unset.
 */
module Config {
  import opened Wrappers
  import opened Strings

  const DefaultModel: string := "gemma3"

  const DefaultPrompt: string :=
    "Correct the spelling, grammar, or phrasing issues in the following text. "
    + "Try to match the tone of the original message. "
    + "The response will be a JSON object that contains:\n "
    + " - original_grammar_strength: A ranking (1-5, 1 being poor/nearly incomprehensible, and 5 not requiring any changes)\n"
    + " - corrected_text: The corrected text\n"
    + " - summary_of_corrections: A brief summary of the changes made\n"
    + " - tone: One word describing the tone of the message (friendly, casual, professional, sarcastic, etc.)"
    + "Use only JSON-safe characters in your response."

  const MacHotkey: string := "<ctrl>+<cmd>+a"
  const OtherHotkey: string := "<ctrl>+<alt>+a"

  /** The modifier of the copy and paste chords. */
  datatype Modifier = Cmd | Ctrl

  /** A variable counts as set when Python finds its value truthy. */
  predicate IsSet(v: Option<string>) {
    v.Some? && v.value != ""
  }

  /** `sys.platform.startswith('darwin')`. */
  predicate IsMac(platform: string) {
    StartsWith(platform, "darwin")
  }

  /** `value if value else default`. */
  function OrDefault(v: Option<string>, default: string): (r: string)
    ensures IsSet(v) ==> r == v.value
    ensures !IsSet(v) ==> r == default
  {
    match v
    case Some(x) => if x == "" then default else x
    case None => default
  }

  /** `get_model`, given the value of `CHECKER_MODEL`. */
  function GetModel(env: Option<string>): (model: string)
    ensures model != ""
    ensures IsSet(env) ==> model == env.value
    ensures !IsSet(env) ==> model == DefaultModel
  {
    OrDefault(env, DefaultModel)
  }

  /** `get_prompt`, given the value of `CHECKER_PROMPT`. */
  function GetPrompt(env: Option<string>): (prompt: string)
    ensures prompt != ""
    ensures IsSet(env) ==> prompt == env.value
    ensures !IsSet(env) ==> prompt == DefaultPrompt
  {
    OrDefault(env, DefaultPrompt)
  }

  /** `get_hotkey_combo`, given the value of `CHECKER_HOTKEY` and `sys.platform`. */
  function GetHotkeyCombo(env: Option<string>, platform: string): (combo: string)
    ensures combo != ""
    ensures IsSet(env) ==> combo == env.value
    ensures !IsSet(env) && IsMac(platform) ==> combo == MacHotkey
    ensures !IsSet(env) && !IsMac(platform) ==> combo == OtherHotkey
  {
    if IsSet(env) then env.value
    else if IsMac(platform) then MacHotkey
    else OtherHotkey
  }

  /** `Key.cmd if is_mac() else Key.ctrl` in the copy and paste chords. */
  function ChordModifier(platform: string): (m: Modifier)
    ensures m == Cmd <==> IsMac(platform)
  {
    if IsMac(platform) then Cmd else Ctrl
  }

  /** An empty override behaves exactly like an unset one. */
  lemma EmptyOverrideIsUnset(platform: string)
    ensures GetModel(Some("")) == GetModel(None) == DefaultModel
    ensures GetPrompt(Some("")) == GetPrompt(None) == DefaultPrompt
    ensures GetHotkeyCombo(Some(""), platform) == GetHotkeyCombo(None, platform)
  {
  }

  /** Only the platform prefix matters: every `darwin...` platform gets the Mac defaults. */
  lemma MacDefaults(suffix: string)
    ensures GetHotkeyCombo(None, "darwin" + suffix) == MacHotkey
    ensures ChordModifier("darwin" + suffix) == Cmd
  {
    assert ("darwin" + suffix)[..6] == "darwin";
  }

  /** Linux and Windows get the `<alt>` combination and the control key. */
  lemma OtherDefaults()
    ensures GetHotkeyCombo(None, "linux") == OtherHotkey && ChordModifier("linux") == Ctrl
    ensures GetHotkeyCombo(None, "win32") == OtherHotkey && ChordModifier("win32") == Ctrl
  {
    assert !IsMac("linux");
    assert !IsMac("win32");
  }
}
