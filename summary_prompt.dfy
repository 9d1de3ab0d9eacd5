/** The pure part of summarisation: the table of selectable summary
    languages, the per-language section headers, the two prompts sent to the
    text-generation backend, and the choice of which transcript chunks are
    summarised at all. */
module SummaryPrompt {
  import opened Wrappers
  import opened PyStr

  // ---------------------------------------------------------------------
  // get_available_languages

  /** Display name and language code of every selectable summary language, in
      the order the selector lists them (the first one is the default). */
  const AvailableLanguages: seq<(string, string)> := [
    ("English", "en"),
    ("Deutsch", "de"),
    ("Espa\U{F1}ol", "es"),
    ("Fran\U{E7}ais", "fr"),
    ("Italiano", "it"),
    ("Nederlands", "nl"),
    ("Polski", "pl"),
    ("Portugu\U{EA}s", "pt"),
    ("\U{65E5}\U{672C}\U{8A9E}", "ja"),
    ("\U{4E2D}\U{6587}", "zh"),
    ("\U{D55C}\U{AD6D}\U{C5B4}", "ko"),
    ("\U{420}\U{443}\U{441}\U{441}\U{43A}\U{438}\U{439}", "ru")
  ]

  /** `languages[name]` on the dictionary: the code listed for a display
      name. */
  function CodeOf(name: string): (r: Option<string>)
    ensures r.Some? <==> exists i :: 0 <= i < |AvailableLanguages| && AvailableLanguages[i].0 == name
  {
    LookUp(AvailableLanguages, name)
  }

  /** Lookup in a dictionary given by its entries in insertion order; a later
      entry for the same key replaces an earlier one, as in a dict display. */
  function LookUp(entries: seq<(string, string)>, key: string): (r: Option<string>)
    ensures r.Some? <==> exists i :: 0 <= i < |entries| && entries[i].0 == key
    ensures r.Some? ==> exists i :: 0 <= i < |entries| && entries[i] == (key, r.value)
    decreases |entries|
  {
    if entries == [] then None
    else if entries[|entries| - 1].0 == key then Some(entries[|entries| - 1].1)
    else LookUp(entries[..|entries| - 1], key)
  }

  // ---------------------------------------------------------------------
  // Section headers

  /** The five section headers of the summary, in one language. */
  datatype Headers = Headers(title: string, overview: string, keyPoints: string,
                             takeaways: string, context: string)

  const EnglishHeaders: Headers :=
    Headers("TITLE", "OVERVIEW", "KEY POINTS", "MAIN TAKEAWAYS", "CONTEXT & IMPLICATIONS")

  const GermanHeaders: Headers :=
    Headers("TITEL", "\U{DC}BERBLICK", "KERNPUNKTE", "HAUPTERKENNTNISSE", "KONTEXT & AUSWIRKUNGEN")

  /** The header vocabularies that exist, by language code. */
  const LanguagePrompts: map<string, Headers> := map["en" := EnglishHeaders, "de" := GermanHeaders]

  /** The vocabulary for a code, English when the code has none of its own. */
  function HeadersFor(code: string): (h: Headers)
    ensures code in LanguagePrompts ==> h == LanguagePrompts[code]
    ensures code !in LanguagePrompts ==> h == EnglishHeaders
  {
    if code in LanguagePrompts then LanguagePrompts[code] else LanguagePrompts["en"]
  }

  // ---------------------------------------------------------------------
  // create_summary_prompt

  /** The fixed text around the language code in the system prompt. */
  const SystemLead: string :=
    "You are an expert content analyst and summarizer. Create a comprehensive \n    summary in "
  const SystemTail: string :=
    ". Ensure all content is fully translated and culturally adapted \n    to the target language."

  /** The fixed text of the user prompt, between the inserted values. */
  const UserLead: string := "Please provide a detailed summary of the following content in "
  const TitleLead: string := ". \n    Structure your response as follows:\n\n    "
  const OverviewLead: string := ": Create a descriptive title\n\n    "
  const KeyPointsLead: string := " (2-3 sentences):\n    - Provide a brief context and main purpose\n\n    "
  const TakeawaysLead: string :=
    ":\n    - Extract and explain the main arguments\n    - Include specific examples\n    - Highlight unique perspectives\n\n    "
  const ContextLead: string := ":\n    - List 3-5 practical insights\n    - Explain their significance\n\n    "
  const TextLead: string := ":\n    - Broader context discussion\n    - Future implications\n\n    "
  const TextLabel: string := "Text to summarize: "
  const UserTail: string :=
    "\n\n    Ensure the summary is comprehensive enough for someone who hasn't seen the original content."

  /** The five section markers, in the order the user prompt lists them:
      emoji, space, header in the chosen vocabulary. */
  function SectionMarkers(h: Headers): (m: seq<string>) {
    [ "\U{1F3AF} " + h.title, "\U{1F4DD} " + h.overview, "\U{1F511} " + h.keyPoints,
      "\U{1F4A1} " + h.takeaways, "\U{1F504} " + h.context ]
  }

  function SystemPrompt(target: string): (r: string) {
    SystemLead + target + SystemTail
  }

  /** Everything of the user prompt that comes before the text's label; it
      depends on the language and its vocabulary alone. */
  function PromptHead(target: string, h: Headers): (r: string) {
    var m := SectionMarkers(h);
    UserLead + target + TitleLead + m[0] + OverviewLead + m[1] + KeyPointsLead + m[2]
      + TakeawaysLead + m[3] + ContextLead + m[4] + TextLead
  }

  function UserPrompt(text: string, target: string, h: Headers): (r: string) {
    PromptHead(target, h) + TextLabel + text + UserTail
  }

  /** `create_summary_prompt(text, target_language)`: the (system, user) pair. */
  function CreateSummaryPrompt(text: string, target: string): (r: (string, string)) {
    (SystemPrompt(target), UserPrompt(text, target, HeadersFor(target)))
  }

  // ---------------------------------------------------------------------
  // The chunk prefix of summarize_with_langchain_and_openai

  /** How many of the splitter's chunks are summarised. */
  const ChunkLimit: nat := 4

  /** `texts[:4]`: the first four chunks, or all of them when there are
      fewer. */
  function FirstChunks(chunks: seq<string>): (sel: seq<string>)
    ensures |sel| == if |chunks| < ChunkLimit then |chunks| else ChunkLimit
    ensures sel == chunks[..|sel|]
  {
    if |chunks| < ChunkLimit then chunks else chunks[..ChunkLimit]
  }

  /** `" ".join(texts[:4])` */
  function TextToSummarize(chunks: seq<string>): (r: string) {
    Join(" ", FirstChunks(chunks))
  }

  /** The prompts sent to the backend for a transcript the splitter cut into
      `chunks`, asked for in language `code`. */
  function PromptsForChunks(chunks: seq<string>, code: string): (r: (string, string)) {
    CreateSummaryPrompt(TextToSummarize(chunks), code)
  }

  // ---------------------------------------------------------------------
  // Properties

  /** Only `de` has a vocabulary other than English: every other code, known
      or not, gets the English headers. */
  lemma HeadersChoice(code: string)
    ensures HeadersFor(code) == GermanHeaders <==> code == "de"
    ensures HeadersFor(code) == EnglishHeaders <==> code != "de"
  {
    assert EnglishHeaders.title != GermanHeaders.title by {
      assert EnglishHeaders.title[3] != GermanHeaders.title[3];
    }
  }

  /** Of the twelve selectable languages, English and German have their own
      vocabulary; the other ten fall back to the English headers. */
  lemma SelectableLanguagesHeaders(i: nat)
    requires i < |AvailableLanguages|
    ensures AvailableLanguages[i].1 in LanguagePrompts <==> i < 2
    ensures HeadersFor(AvailableLanguages[i].1) == if i == 1 then GermanHeaders else EnglishHeaders
  {
    HeadersChoice(AvailableLanguages[i].1);
  }

  /** The part before the text lists the five section markers of the
      vocabulary in the order title, overview, key points, takeaways, context. */
  lemma MarkersInOrder(target: string, h: Headers)
    ensures OccurInOrder(PromptHead(target, h), SectionMarkers(h))
  {
    var m := SectionMarkers(h);
    Layout(UserLead + target + TitleLead, m[0], OverviewLead, m[1], KeyPointsLead, m[2],
      TakeawaysLead, m[3], ContextLead, m[4], TextLead);
    assert m == [m[0], m[1], m[2], m[3], m[4]];
  }

  /** Markers separated by arbitrary text occur in order. */
  lemma Layout(a0: string, m0: string, l1: string, m1: string, l2: string, m2: string,
               l3: string, m3: string, l4: string, m4: string, l5: string)
    ensures OccurInOrder(a0 + m0 + l1 + m1 + l2 + m2 + l3 + m3 + l4 + m4 + l5, [m0, m1, m2, m3, m4])
  {
    OccurInOrderEnd(a0, m0);
    var s1 := a0 + m0;
    ThenMarker(s1, [m0], l1, m1);
    assert [m0] + [m1] == [m0, m1];
    var s2 := s1 + l1 + m1;
    ThenMarker(s2, [m0, m1], l2, m2);
    assert [m0, m1] + [m2] == [m0, m1, m2];
    var s3 := s2 + l2 + m2;
    ThenMarker(s3, [m0, m1, m2], l3, m3);
    assert [m0, m1, m2] + [m3] == [m0, m1, m2, m3];
    var s4 := s3 + l3 + m3;
    ThenMarker(s4, [m0, m1, m2, m3], l4, m4);
    assert [m0, m1, m2, m3] + [m4] == [m0, m1, m2, m3, m4];
    var s5 := s4 + l4 + m4;
    assert OccurInOrder(l5, []);
    OccurInOrderConcat(s5, [m0, m1, m2, m3, m4], l5, []);
    assert [m0, m1, m2, m3, m4] + [] == [m0, m1, m2, m3, m4];
  }

  /** Text then one more marker, after markers already in order. */
  lemma ThenMarker(s: string, ps: seq<string>, lead: string, marker: string)
    requires OccurInOrder(s, ps)
    ensures OccurInOrder(s + lead + marker, ps + [marker])
  {
    OccurInOrderEnd(lead, marker);
    OccurInOrderConcat(s, ps, lead + marker, [marker]);
    assert s + lead + marker == s + (lead + marker);
  }

  /** The user prompt of `create_summary_prompt` unfolded: the head, the
      label, the text and the closing sentence. */
  lemma UserPromptParts(text: string, target: string)
    ensures CreateSummaryPrompt(text, target).1 == PromptHead(target, HeadersFor(target)) + TextLabel + text + UserTail
  {
  }

  /** Where the text sits in the user prompt: verbatim, right after a part
      fixed by the language and its vocabulary, and the prompt ends with the
      fixed closing sentence. */
  lemma TextPosition(text: string, target: string, h: Headers)
    ensures Framing(UserPrompt(text, target, h), PromptHead(target, h) + TextLabel, text, UserTail)
  {
    Framed(PromptHead(target, h) + TextLabel, text, UserTail);
  }

  /** `s` starts with `p`, has `t` right after it, and ends with `q`, with
      nothing else in between. */
  predicate Framing(s: string, p: string, t: string, q: string) {
    && |s| == |p| + |t| + |q|
    && s[..|p|] == p
    && OccursAt(s, t, |p|)
    && s[|s| - |q|..] == q
  }

  lemma Framed(p: string, t: string, q: string)
    ensures Framing(p + t + q, p, t, q)
  {
    var s := p + t + q;
    assert s[|p|..|p| + |t|] == t;
    assert s[..|p|] == p;
    assert s[|s| - |q|..] == q;
  }

  /** The user prompt lists the five section markers in order and then the
      text, verbatim, after its label. */
  lemma UserPromptLayout(text: string, target: string)
    ensures OccurInOrder(CreateSummaryPrompt(text, target).1,
      SectionMarkers(HeadersFor(target)) + [TextLabel + text])
  {
    var h := HeadersFor(target);
    MarkersInOrder(target, h);
    UserPromptParts(text, target);
    ThenLabelled(PromptHead(target, h), SectionMarkers(h), TextLabel, text, UserTail);
  }

  /** A labelled text after parts in order is one more part in that order. */
  lemma ThenLabelled(pre: string, ms: seq<string>, lab: string, text: string, tail: string)
    requires OccurInOrder(pre, ms)
    ensures OccurInOrder(pre + lab + text + tail, ms + [lab + text])
  {
    OccurInOrderEnd([], lab + text);
    assert [] + (lab + text) == lab + text;
    ThenParts(pre, ms, [], lab + text, [lab + text], tail);
    assert pre + [] + (lab + text) + tail == pre + lab + text + tail;
  }

  /** Parts in order inside a piece of text keep their order wherever the
      text is placed, and come after the parts in order before it. */
  lemma ThenParts(pre: string, ms: seq<string>, lab: string, text: string, ps: seq<string>, tail: string)
    requires OccurInOrder(pre, ms) && OccurInOrder(text, ps)
    ensures OccurInOrder(pre + lab + text + tail, ms + ps)
  {
    OccurInOrderPrepend(lab, text, ps);
    assert OccurInOrder(tail, []);
    OccurInOrderConcat(lab + text, ps, tail, []);
    assert ps + [] == ps;
    OccurInOrderConcat(pre, ms, lab + text + tail, ps);
    assert pre + (lab + text + tail) == pre + lab + text + tail;
  }

  /** The user prompt carries the text without loss: two texts give the same
      prompt pair only if they are the same text. */
  lemma PromptDeterminesText(text1: string, text2: string, target: string)
    requires CreateSummaryPrompt(text1, target) == CreateSummaryPrompt(text2, target)
    ensures text1 == text2
  {
    UserPromptParts(text1, target);
    UserPromptParts(text2, target);
    Cancel(PromptHead(target, HeadersFor(target)) + TextLabel, text1, text2, UserTail);
  }

  /** Concatenation with fixed text on both sides is injective. */
  lemma Cancel(p: string, t1: string, t2: string, q: string)
    requires p + t1 + q == p + t2 + q
    ensures t1 == t2
  {
    assert |t1| == |t2|;
    assert (p + t1 + q)[|p|..|p| + |t1|] == t1;
    assert (p + t2 + q)[|p|..|p| + |t2|] == t2;
  }

  /** The system prompt names the target language and does not depend on the
      text. */
  lemma SystemPromptNamesLanguage(text: string, target: string)
    ensures OccursAt(CreateSummaryPrompt(text, target).0, target, |SystemLead|)
    ensures CreateSummaryPrompt(text, target).0 == CreateSummaryPrompt("", target).0
  {
    InfixOfConcat(SystemLead, target, SystemTail);
  }

  /** At most the first four chunks are summarised, each verbatim and in the
      splitter's order, with one space between neighbours. */
  lemma SelectedChunks(chunks: seq<string>)
    ensures var sel := FirstChunks(chunks);
      && OccurInOrder(TextToSummarize(chunks), sel)
      && |TextToSummarize(chunks)| == TotalLength(sel) + (if sel == [] then 0 else |sel| - 1)
  {
    var sel := FirstChunks(chunks);
    JoinKeepsParts(" ", sel);
    if sel != [] {
      JoinLength(" ", sel);
    }
  }

  /** Below the limit, one more chunk reaches the summarised text after a
      single space. */
  lemma NextChunkAfterSpace(chunks: seq<string>, c: string)
    requires 1 <= |chunks| < ChunkLimit
    ensures TextToSummarize(chunks + [c]) == TextToSummarize(chunks) + " " + c
  {
    assert FirstChunks(chunks) == chunks;
    assert FirstChunks(chunks + [c]) == chunks + [c];
    JoinAppend(" ", chunks, c);
  }

  /** Chunks after the fourth never reach the backend: appending more of them
      leaves both prompts unchanged. */
  lemma ChunksAfterLimitIgnored(chunks: seq<string>, more: seq<string>, code: string)
    requires |chunks| >= ChunkLimit
    ensures PromptsForChunks(chunks + more, code) == PromptsForChunks(chunks, code)
  {
    assert (chunks + more)[..ChunkLimit] == chunks[..ChunkLimit];
  }

  /** The user prompt shows the section markers of the chosen vocabulary in
      order, followed by the selected chunks in order. */
  lemma PromptCarriesChunks(chunks: seq<string>, code: string)
    ensures OccurInOrder(PromptsForChunks(chunks, code).1,
      SectionMarkers(HeadersFor(code)) + FirstChunks(chunks))
  {
    var text := TextToSummarize(chunks);
    SelectedChunks(chunks);
    var h := HeadersFor(code);
    MarkersInOrder(code, h);
    UserPromptParts(text, code);
    ThenParts(PromptHead(code, h), SectionMarkers(h), TextLabel, text,
      FirstChunks(chunks), UserTail);
  }

  /** A selectable display name maps to the code listed beside it. */
  lemma CodeOfListedName(i: nat)
    requires i < |AvailableLanguages|
    ensures CodeOf(AvailableLanguages[i].0) == Some(AvailableLanguages[i].1)
  {
    NamesDistinct();
    LookUpDistinct(AvailableLanguages, i);
  }

  /** No display name is listed twice, and neither is any code. */
  lemma NamesDistinct()
    ensures forall i, j :: 0 <= i < j < |AvailableLanguages| ==>
      AvailableLanguages[i].0 != AvailableLanguages[j].0 && AvailableLanguages[i].1 != AvailableLanguages[j].1
  {
  }

  /** With no key listed twice, lookup finds the entry for each key. */
  lemma {:induction false} LookUpDistinct(entries: seq<(string, string)>, i: nat)
    requires i < |entries|
    requires forall a, b :: 0 <= a < b < |entries| ==> entries[a].0 != entries[b].0
    ensures LookUp(entries, entries[i].0) == Some(entries[i].1)
    decreases |entries|
  {
    var last := |entries| - 1;
    if i < last {
      assert entries[last].0 != entries[i].0;
      var init := entries[..last];
      assert init[i] == entries[i];
      LookUpDistinct(init, i);
    }
  }
}
