/**
 * What the submit handler computes before anything goes over the network:
 * the trimmed message (an empty one stops the submission), the model checked
 * against the allow-list, the system prompt with its default, and the request
 * payload, whose message list is a copy of the history with the new user
 * message appended.
 *
 * Which characters count as whitespace for `trim` is a parameter, `isSpace`.
 * The temperature slider's parsed value is carried through untouched as an
 * opaque `Temperature`.
 */
module RequestBuilder {
  import opened Wrappers

  datatype Role = User | Assistant

  /** One entry of the conversation, `{ role, content }`. */
  datatype Message = Message(role: Role, content: string)

  /** The number `parseFloat` reads from the temperature slider; its value plays no part here. */
  type Temperature(==)

  /** The JSON body sent to the worker. */
  datatype Payload = Payload(
    provider: string,
    model: string,
    temperature: Temperature,
    system: string,
    messages: seq<Message>)

  const AllowedGeminiModels: seq<string> := ["gemini-2.5-pro", "gemini-2.5-flash", "gemini-2.5-flash-lite"]
  const FallbackModel: string := "gemini-2.5-flash"
  const DefaultSystem: string := "You are a helpful AI assistant. Explain simply."
  const Provider: string := "gemini"

  /** Every character of `s` is whitespace. */
  predicate AllSpace(s: string, isSpace: char -> bool)
  {
    forall i :: 0 <= i < |s| ==> isSpace(s[i])
  }

  /** The first position at or after `lo` that holds a non-whitespace character, or `|s|`. */
  function StartOfText(s: string, isSpace: char -> bool, lo: nat): (b: nat)
    requires lo <= |s|
    ensures lo <= b <= |s|
    ensures forall i :: lo <= i < b ==> isSpace(s[i])
    ensures b < |s| ==> !isSpace(s[b])
    decreases |s| - lo
  {
    if lo == |s| || !isSpace(s[lo]) then lo else StartOfText(s, isSpace, lo + 1)
  }

  /** The position just after the last non-whitespace character of `s[lo..hi]`, or `lo`. */
  function EndOfText(s: string, isSpace: char -> bool, lo: nat, hi: nat): (e: nat)
    requires lo <= hi <= |s|
    ensures lo <= e <= hi
    ensures forall i :: e <= i < hi ==> isSpace(s[i])
    ensures lo < e ==> !isSpace(s[e - 1])
    decreases hi
  {
    if hi == lo || !isSpace(s[hi - 1]) then hi else EndOfText(s, isSpace, lo, hi - 1)
  }

  /** `String.prototype.trim`: `s` without its leading and trailing whitespace. */
  function Trim(s: string, isSpace: char -> bool): (r: string)
    ensures |r| <= |s|
    ensures r == [] <==> AllSpace(s, isSpace)
    ensures r != [] ==> !isSpace(r[0]) && !isSpace(r[|r| - 1])
    ensures var lo := StartOfText(s, isSpace, 0);
            lo + |r| <= |s| && r == s[lo..lo + |r|] && forall i :: lo + |r| <= i < |s| ==> isSpace(s[i])
  {
    var b := StartOfText(s, isSpace, 0);
    var e := EndOfText(s, isSpace, b, |s|);
    assert b < |s| ==> b < e;
    s[b..e]
  }

  /** Trimming twice is trimming once. */
  lemma TrimIdempotent(s: string, isSpace: char -> bool)
    ensures Trim(Trim(s, isSpace), isSpace) == Trim(s, isSpace)
  {
    var r := Trim(s, isSpace);
    if r != [] {
      assert StartOfText(r, isSpace, 0) == 0;
      assert EndOfText(r, isSpace, 0, |r|) == |r|;
      assert r[0..|r|] == r;
    }
  }

  /** The model sent: the selected one if the allow-list has it, the fallback otherwise. */
  function ChooseModel(selected: string): (m: string)
    ensures m in AllowedGeminiModels
    ensures selected in AllowedGeminiModels ==> m == selected
    ensures selected !in AllowedGeminiModels ==> m == FallbackModel
  {
    if selected in AllowedGeminiModels then selected else FallbackModel
  }

  /** `system || default`: an empty prompt (the only falsy string) is replaced; any other, even blank, is kept. */
  function SystemPrompt(system: string): (r: string)
    ensures r != []
    ensures system != [] ==> r == system
    ensures system == [] ==> r == DefaultSystem
  {
    if system == [] then DefaultSystem else system
  }

  /**
   * The request the submit handler sends for the text in the input box, or
   * `None` when the trimmed text is empty and the handler returns at once.
   */
  function BuildPayload(input: string, isSpace: char -> bool, selectedModel: string,
                        temperature: Temperature, system: string, history: seq<Message>): (p: Option<Payload>)
    ensures p.None? <==> AllSpace(input, isSpace)
    ensures p.Some? ==> p.value.provider == Provider && p.value.temperature == temperature
    ensures p.Some? ==> p.value.model == ChooseModel(selectedModel) && p.value.model in AllowedGeminiModels
    ensures p.Some? ==> p.value.system == SystemPrompt(system)
    ensures p.Some? ==> |p.value.messages| == |history| + 1 && p.value.messages[..|history|] == history
    ensures p.Some? ==> var last := p.value.messages[|history|];
                        last.role == User && last.content == Trim(input, isSpace) && last.content != []
  {
    var text := Trim(input, isSpace);
    if text == [] then None
    else
      Some(Payload(Provider, ChooseModel(selectedModel), temperature, SystemPrompt(system),
                   history + [Message(User, text)]))
  }

}
