/** `generar_descripcion_base`: builds the prompt, hands it to the text
    generator (an external collaborator, so its outcome is a parameter here),
    removes the echoed prompt, strips whitespace, cuts the text after its last
    period and falls back to fixed messages when nothing usable is left. */
module Generation {
  import opened Text

  /** Returned when the trimmed text is empty. */
  const NO_VALID_DESCRIPTION: string := "No se pudo generar una descripción válida."

  /** Returned when the generator call raised. */
  const GENERATION_ERROR: string := "Error al generar la descripción."

  const PROMPT_OPENING: string :=
    "Soy un experto en marketing para dropshipping. Mi tarea es escribir una descripción atractiva de 3-4 oraciones para: "

  const PROMPT_CLOSING: string := ". Termina con una llamada a la acción clara."

  /** What the generator call produced: its text, or an exception. */
  datatype GeneratorOutcome = Generated(text: string) | Raised

  /** The instruction sent to the generator. */
  function Prompt(product: string, tone: string, keywords: seq<string>): (prompt: string)
    ensures PROMPT_OPENING <= prompt && EndsWith(prompt, PROMPT_CLOSING)
  {
    PROMPT_OPENING + product + ". "
      + "El tono debe ser " + tone + ", optimizada para SEO con estas palabras clave: "
      + Join(keywords, ", ") + PROMPT_CLOSING
  }

  /** `resultado.replace(prompt, "").strip()` */
  function Clean(generated: string, prompt: string): (text: string)
    requires prompt != []
    ensures text == [] || (!IsSpace(text[0]) && !IsSpace(text[|text| - 1]))
  {
    Strip(Replace(generated, prompt, ""))
  }

  /** Keeps the text up to and including its last period; an empty text
      becomes the fixed fallback message. */
  function TrimToLastSentence(text: string): (r: string)
    ensures r != []
    ensures '.' in text ==>
      |r| <= |text| && r == text[..|r|] && EndsWith(r, ".") && '.' !in text[|r|..]
    ensures '.' !in text && text != [] ==> r == text
    ensures text == [] ==> r == NO_VALID_DESCRIPTION
  {
    var last := RFind(text, '.');
    var t := if last != -1 then text[..last + 1] else text;
    if t != [] then t else NO_VALID_DESCRIPTION
  }

  /** The whole of `generar_descripcion_base` once the generator has answered. */
  function BaseDescription(product: string, tone: string, keywords: seq<string>, outcome: GeneratorOutcome): (r: string)
    ensures r != []
    ensures '.' in r ==> EndsWith(r, ".")
    ensures outcome.Raised? ==> r == GENERATION_ERROR
  {
    match outcome
    case Raised => GENERATION_ERROR
    case Generated(generated) =>
      var prompt := Prompt(product, tone, keywords);
      TrimToLastSentence(Clean(generated, prompt))
  }

  /** Trimming an already trimmed text changes nothing. */
  lemma TrimIdempotent(text: string)
    ensures TrimToLastSentence(TrimToLastSentence(text)) == TrimToLastSentence(text)
  {
    var r := TrimToLastSentence(text);
    if '.' in text || text == [] {
      assert r[|r| - 1] == '.';
      assert r[..|r|] == r;
    }
  }

  /** When the generator echoes the prompt in front of its continuation, and
      the continuation does not repeat the prompt, the base description is
      the trimmed, stripped continuation alone. */
  lemma EchoedPromptRemoved(product: string, tone: string, keywords: seq<string>, continuation: string)
    requires !Contains(continuation, Prompt(product, tone, keywords))
    ensures BaseDescription(product, tone, keywords, Generated(Prompt(product, tone, keywords) + continuation))
         == TrimToLastSentence(Strip(continuation))
  {
    var prompt := Prompt(product, tone, keywords);
    RemoveLeading(prompt, continuation);
    ReplaceAbsent(continuation, prompt, "");
  }

  /** The incomplete trailing fragment of a generated text is dropped. */
  lemma TrimDropsIncompleteTail()
    ensures TrimToLastSentence("Bueno. Barato. Y algo")
         == "Bueno. Barato."
  {
    var text := "Bueno. Barato. Y algo";
    assert text[13] == '.';
    assert '.' !in text[14..];
  }
}
