/** The generator of src/generator.py: the prompt built from the retrieved chunks and the query,
    and the answer record made from the model server's reply. The HTTP call is an input. */
module Generator {
  import opened Text
  import opened Results
  import opened Records
  import Config

  /** The instructions every prompt starts with (src/generator.py:14-19). */
  const SYSTEM_PROMPT: string :=
    "You are an assistant for a Security Operations Center. "
    + "Answer the question based ONLY on the provided context. "
    + "If the context does not contain enough information to answer, say so clearly. "
    + "Always cite which document(s) your answer comes from."

  // ---------------------------------------------------------------------------------------------
  // build_prompt (src/generator.py:22-40).

  /** The context part for one chunk: f"[Source: {source}]\n{text}". */
  function Segment(c: RetrievedChunk): string {
    "[Source: " + c.source + "]\n" + c.text
  }

  function Segments(chunks: seq<RetrievedChunk>): (ss: seq<string>)
    ensures |ss| == |chunks|
  {
    seq(|chunks|, i requires 0 <= i < |chunks| => Segment(chunks[i]))
  }

  /** The context block: the segments joined with blank lines. */
  function Context(chunks: seq<RetrievedChunk>): string {
    Join("\n\n", Segments(chunks))
  }

  const PROMPT_HEAD: string := SYSTEM_PROMPT + "\n\n" + "Context:\n"
  const QUESTION_HEAD: string := "\n\n" + "Question: "

  /** The prompt build_prompt returns. */
  function Prompt(query: string, chunks: seq<RetrievedChunk>): string {
    PROMPT_HEAD + Context(chunks) + QUESTION_HEAD + query
  }

  /** build_prompt: one segment per chunk appended in a loop, then the join and the f-strings. */
  method BuildPrompt(query: string, chunks: seq<RetrievedChunk>) returns (prompt: string)
    ensures prompt == Prompt(query, chunks)
  {
    var contextParts: seq<string> := [];
    var i := 0;
    while i < |chunks|
      invariant i <= |chunks|
      invariant contextParts == Segments(chunks)[..i]
    {
      contextParts := contextParts + ["[Source: " + chunks[i].source + "]\n" + chunks[i].text];
      i := i + 1;
    }
    assert contextParts == Segments(chunks);
    var contextBlock := Join("\n\n", contextParts);
    prompt := SYSTEM_PROMPT + "\n\n" + "Context:\n" + contextBlock + "\n\n" + "Question: " + query;
  }

  /** The prompt is the system prompt and the "Context:" line, the context block, and the
      question line ending in the query: it starts with SYSTEM_PROMPT, has the context block
      right after the "Context:" line, and ends with "Question: " + query (src/generator.py:36-40). */
  lemma PromptParts(query: string, chunks: seq<RetrievedChunk>)
    ensures |Prompt(query, chunks)| == |PROMPT_HEAD| + |Context(chunks)| + |QUESTION_HEAD| + |query|
    ensures StartsWith(Prompt(query, chunks), SYSTEM_PROMPT)
    ensures StartsWith(Prompt(query, chunks), PROMPT_HEAD + Context(chunks))
    ensures EndsWith(Prompt(query, chunks), "Question: " + query)
  {
    var head := PROMPT_HEAD + Context(chunks);
    var p := Prompt(query, chunks);
    ConcatEnds(head + QUESTION_HEAD, query);
    ConcatEnds(head, QUESTION_HEAD);
    StartsWithTrans(p, head + QUESTION_HEAD, head);
    ConcatEnds(PROMPT_HEAD, Context(chunks));
    ConcatEnds(SYSTEM_PROMPT + "\n\n", "Context:\n");
    ConcatEnds(SYSTEM_PROMPT, "\n\n");
    StartsWithTrans(PROMPT_HEAD, SYSTEM_PROMPT + "\n\n", SYSTEM_PROMPT);
    StartsWithTrans(head, PROMPT_HEAD, SYSTEM_PROMPT);
    StartsWithTrans(p, head, SYSTEM_PROMPT);
    ConcatEnds("\n\n", "Question: ");
    EndsWithTrans(head + QUESTION_HEAD, QUESTION_HEAD, "Question: ");
    EndsWithAppend(head + QUESTION_HEAD, "Question: ", query);
  }

  /** With no chunks the context block is empty (src/generator.py:30-34). */
  lemma NoChunks(query: string)
    ensures Context([]) == ""
    ensures Prompt(query, []) == SYSTEM_PROMPT + "\n\nContext:\n\n\nQuestion: " + query
  {
    assert Segments([]) == [];
  }

  /** Segment i of the context block sits at JoinOffset(i), in input order (src/generator.py:30-34). */
  lemma SegmentInContext(chunks: seq<RetrievedChunk>, i: nat)
    requires i < |chunks|
    ensures var c := Context(chunks);
      var lo := JoinOffset("\n\n", Segments(chunks), i);
      lo + |Segment(chunks[i])| <= |c| && c[lo..lo + |Segment(chunks[i])|] == Segment(chunks[i])
  {
    var ss := Segments(chunks);
    assert ss[i] == Segment(chunks[i]);
    JoinLayout("\n\n", ss, i);
  }

  /** A blank line follows every segment but the last, and the next segment starts right after
      it (src/generator.py:30-34). */
  lemma SegmentsSeparated(chunks: seq<RetrievedChunk>, i: nat)
    requires i + 1 < |chunks|
    ensures var c := Context(chunks);
      var hi := JoinOffset("\n\n", Segments(chunks), i) + |Segment(chunks[i])|;
      hi + 2 == JoinOffset("\n\n", Segments(chunks), i + 1) <= |c| && c[hi..hi + 2] == "\n\n"
  {
    var ss := Segments(chunks);
    assert ss[i] == Segment(chunks[i]);
    JoinSeparates("\n\n", ss, i);
  }

  /** The prompt depends only on the query and on the source and text of each chunk, in order;
      titles and chunk indices do not reach it (src/generator.py:22-40). */
  lemma PromptReadsSourceAndText(query: string, cs1: seq<RetrievedChunk>, cs2: seq<RetrievedChunk>)
    requires |cs1| == |cs2|
    requires forall i :: 0 <= i < |cs1| ==> cs1[i].source == cs2[i].source && cs1[i].text == cs2[i].text
    ensures Prompt(query, cs1) == Prompt(query, cs2)
  {
    assert Segments(cs1) == Segments(cs2);
  }

  /** Different queries give different prompts over the same chunks: the query is the whole
      tail after "Question: ". */
  lemma PromptDeterminesQuery(q1: string, q2: string, chunks: seq<RetrievedChunk>)
    requires Prompt(q1, chunks) == Prompt(q2, chunks)
    ensures q1 == q2
  {
    var h := PROMPT_HEAD + Context(chunks) + QUESTION_HEAD;
    assert Prompt(q1, chunks) == h + q1 && Prompt(q2, chunks) == h + q2;
    assert q1 == (h + q1)[|h|..];
  }

  // ---------------------------------------------------------------------------------------------
  // generate (src/generator.py:43-77).

  /** The POST to the model server: its URL and the JSON body {"model", "prompt", "stream"}. */
  datatype Request = Request(url: string, model: string, prompt: string, stream: bool)

  /** How the POST ends: no connection, another transport failure (a timeout, say), or a reply
      with its status and the "response" field of its JSON body. */
  datatype HttpOutcome = ConnectFailed | TransportFailed | Responded(status: int, response: string)

  /** The record generate returns. */
  datatype Answer = Answer(answer: string, sources: seq<string>, query: string)

  /** The errors generate raises: the connection error it converts, the status error of
      raise_for_status, and any other transport error, which it lets through. */
  datatype GenerateError = BackendUnavailable(message: string) | BackendStatus(status: int) | BackendTransport

  const CONNECT_MESSAGE: string :=
    "Could not connect to Ollama at " + Config.OLLAMA_URL + ". " + "Make sure Ollama is running: ollama serve"

  /** The request generate sends (src/generator.py:49-56). */
  function RequestFor(query: string, chunks: seq<RetrievedChunk>): Request {
    Request(Config.OLLAMA_URL + "/api/generate", Config.OLLAMA_MODEL, Prompt(query, chunks), false)
  }

  /** raise_for_status: only a 2xx status passes. */
  predicate IsSuccess(status: int) {
    200 <= status < 300
  }

  predicate NoDuplicates(s: seq<string>) {
    forall i, j :: 0 <= i < j < |s| ==> s[i] != s[j]
  }

  /** The sources of the chunks, as a set. */
  function SourceSet(chunks: seq<RetrievedChunk>): set<string> {
    set c | c in chunks :: c.source
  }

  /** list({chunk["source"] for chunk in context_chunks}) (src/generator.py:69-71): each source
      once, in an order the model leaves open. */
  method ListOfSources(chunks: seq<RetrievedChunk>) returns (sources: seq<string>)
    ensures NoDuplicates(sources)
    ensures forall s :: s in sources <==> s in SourceSet(chunks)
  {
    var rest := SourceSet(chunks);
    sources := [];
    while rest != {}
      invariant NoDuplicates(sources)
      invariant forall s :: s in sources ==> s !in rest
      invariant forall s :: s in SourceSet(chunks) <==> s in sources || s in rest
      decreases |rest|
    {
      var s :| s in rest;
      sources := sources + [s];
      rest := rest - {s};
    }
  }

  /** generate: the prompt for the query and chunks goes to the model server; a failed
      connection becomes BackendUnavailable(CONNECT_MESSAGE), a non-2xx status and any other
      transport failure are raised as they are, and a 2xx reply gives its response as the
      answer, the distinct sources of the chunks, and the query unchanged. */
  method Generate(query: string, chunks: seq<RetrievedChunk>, post: Request -> HttpOutcome)
    returns (r: Result<Answer, GenerateError>)
    ensures post(RequestFor(query, chunks)).ConnectFailed? ==> r == Err(BackendUnavailable(CONNECT_MESSAGE))
    ensures post(RequestFor(query, chunks)).TransportFailed? ==> r == Err(BackendTransport)
    ensures post(RequestFor(query, chunks)).Responded? ==>
      var reply := post(RequestFor(query, chunks));
      (!IsSuccess(reply.status) ==> r == Err(BackendStatus(reply.status)))
      && (IsSuccess(reply.status) ==>
            r.Ok? && r.value.answer == reply.response && r.value.query == query
            && NoDuplicates(r.value.sources)
            && forall s :: s in r.value.sources <==> s in SourceSet(chunks))
  {
    var prompt := BuildPrompt(query, chunks);
    var outcome := post(Request(Config.OLLAMA_URL + "/api/generate", Config.OLLAMA_MODEL, prompt, false));
    match outcome
    case ConnectFailed =>
      return Err(BackendUnavailable(CONNECT_MESSAGE));
    case TransportFailed =>
      return Err(BackendTransport);
    case Responded(status, response) =>
      if !IsSuccess(status) {
        return Err(BackendStatus(status));
      }
      var sources := ListOfSources(chunks);
      r := Ok(Answer(response, sources, query));
  }

  /** Every chunk's source is among the sources, and nothing else is (src/generator.py:69-71). */
  lemma SourcesOfChunks(chunks: seq<RetrievedChunk>, i: nat)
    requires i < |chunks|
    ensures chunks[i].source in SourceSet(chunks)
    ensures forall s :: s in SourceSet(chunks) ==> exists j :: 0 <= j < |chunks| && chunks[j].source == s
  {
    assert chunks[i] in chunks;
  }
}
