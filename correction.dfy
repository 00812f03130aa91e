/**
 * The reply of the correction service: the `Response` record
 * (grammar_llama/main.py:50-54). Its strength is one of the five literal
 * strings "1" to "5"; the prompt says 1 is nearly incomprehensible and 5 needs
 * no change.
 */
module Correction {
  import opened Wrappers

  datatype Response = Response(
    originalGrammarStrength: string,
    correctedText: string,
    summaryOfCorrections: string,
    tone: string)

  /** `Literal["1", "2", "3", "4", "5"]`. */
  const StrengthLiterals: seq<string> := ["1", "2", "3", "4", "5"]

  predicate IsStrengthLiteral(s: string) {
    s in StrengthLiterals
  }

  /** What pydantic accepts as a `Response`. */
  predicate ValidResponse(r: Response) {
    IsStrengthLiteral(r.originalGrammarStrength)
  }

  /** The literal for a rank: a single decimal digit. */
  function StrengthLiteral(rank: nat): (s: string)
    requires 1 <= rank <= 5
    ensures IsStrengthLiteral(s)
    ensures |s| == 1 && s[0] as int == '0' as int + rank
  {
    StrengthLiterals[rank - 1]
  }

  /** The rank a strength string denotes, when it is one of the literals. */
  function StrengthRank(s: string): (rank: Option<nat>)
    ensures rank.Some? <==> IsStrengthLiteral(s)
    ensures rank.Some? ==> 1 <= rank.value <= 5 && StrengthLiteral(rank.value) == s
  {
    if |s| == 1 && '1' <= s[0] <= '5' then
      var r := s[0] as int - '0' as int;
      assert s == StrengthLiterals[r - 1];
      Some(r)
    else None
  }

  /** The literal of a rank is read back as that rank: the scale has exactly five levels. */
  lemma StrengthRoundTrip(rank: nat)
    requires 1 <= rank <= 5
    ensures StrengthRank(StrengthLiteral(rank)) == Some(rank)
  {
  }

  /**
   * The field check of `Response.model_validate_json` (line 129) once the JSON
   * object is parsed: the record is built exactly when the strength is a literal.
   */
  function Validate(strength: string, corrected: string, summary: string, tone: string): (r: Option<Response>)
    ensures r.Some? <==> IsStrengthLiteral(strength)
    ensures r.Some? ==> ValidResponse(r.value)
    ensures r.Some? ==> r.value.originalGrammarStrength == strength && r.value.correctedText == corrected
    ensures r.Some? ==> r.value.summaryOfCorrections == summary && r.value.tone == tone
  {
    if StrengthRank(strength).Some? then Some(Response(strength, corrected, summary, tone)) else None
  }
}
