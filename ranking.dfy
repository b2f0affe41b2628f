/**
 * `rank_resumes_with_gemini` (utils.py): build one prompt from the job
 * description and the candidates' texts, send it to the generative model,
 * strip code fences from the reply and decode it as JSON; any failure becomes
 * a one-record sentinel list. The model call and `json.loads` are parameters.
 */
module Ranking {
  import opened Strings
  import opened Dicts
  import opened Json

  const CandidateTextLimit := 10000
  const JobDescriptionLimit := 5000

  function BlockOpening(name: string): string
  {
    "\n--- CANDIDATE START (" + name + ") ---\n"
  }

  const BlockClosing := "\n--- CANDIDATE END ---\n"

  /** One candidate's block: delimiters naming the file, around the first 10000 characters of its text. */
  function CandidateBlock(name: string, text: string): string
  {
    BlockOpening(name) + Take(text, CandidateTextLimit) + BlockClosing
  }

  /** A block shows a candidate's text up to its first 10000 characters and nothing beyond them. */
  lemma CandidateBlockTruncates(name: string, t1: string, t2: string)
    ensures CandidateBlock(name, t1) == CandidateBlock(name, t2)
        <==> Take(t1, CandidateTextLimit) == Take(t2, CandidateTextLimit)
  {
    if CandidateBlock(name, t1) == CandidateBlock(name, t2) {
      ConcatCancel(BlockOpening(name), Take(t1, CandidateTextLimit), BlockClosing, Take(t2, CandidateTextLimit));
    }
  }

  /** The candidates section: one block per key of `keys`, in that order. */
  function CandidatesSection(keys: seq<string>, entries: map<string, string>): string
    requires forall k :: k in keys ==> k in entries
    decreases |keys|
  {
    if keys == [] then ""
    else
      var last := keys[|keys| - 1];
      CandidatesSection(keys[..|keys| - 1], entries) + CandidateBlock(last, entries[last])
  }

  /** The section of a concatenation of key lists is the concatenation of their sections. */
  lemma {:induction false} CandidatesSectionAppend(k1: seq<string>, k2: seq<string>, entries: map<string, string>)
    requires forall k :: k in k1 + k2 ==> k in entries
    ensures CandidatesSection(k1 + k2, entries) == CandidatesSection(k1, entries) + CandidatesSection(k2, entries)
    decreases |k2|
  {
    if k2 == [] {
      assert k1 + k2 == k1;
    } else {
      var last := k2[|k2| - 1];
      var init := k2[..|k2| - 1];
      assert (k1 + k2)[..|k1 + k2| - 1] == k1 + init;
      CandidatesSectionAppend(k1, init, entries);
      var a, b, c := CandidatesSection(k1, entries), CandidatesSection(init, entries), CandidateBlock(last, entries[last]);
      assert a + b + c == a + (b + c);
    }
  }

  /** The candidate at position `i` of the iteration order has its block after those of all earlier keys and before all later ones. */
  lemma CandidatesSectionOrder(keys: seq<string>, entries: map<string, string>, i: nat)
    requires forall k :: k in keys ==> k in entries
    requires i < |keys|
    ensures CandidatesSection(keys, entries)
         == CandidatesSection(keys[..i], entries) + CandidateBlock(keys[i], entries[keys[i]]) + CandidatesSection(keys[i + 1..], entries)
  {
    assert keys == keys[..i + 1] + keys[i + 1..];
    CandidatesSectionAppend(keys[..i + 1], keys[i + 1..], entries);
    assert keys[..i + 1][..i] == keys[..i];
  }

  /** The section depends on each candidate's text only through its first 10000 characters. */
  lemma {:induction false} CandidatesSectionTruncates(keys: seq<string>, m1: map<string, string>, m2: map<string, string>)
    requires forall k :: k in keys ==> k in m1 && k in m2
    requires forall k :: k in keys ==> Take(m1[k], CandidateTextLimit) == Take(m2[k], CandidateTextLimit)
    ensures CandidatesSection(keys, m1) == CandidatesSection(keys, m2)
    decreases |keys|
  {
    if keys != [] {
      var last := keys[|keys| - 1];
      CandidatesSectionTruncates(keys[..|keys| - 1], m1, m2);
      CandidateBlockTruncates(last, m1[last], m2[last]);
    }
  }

  /** The loop that builds the candidates section, one dictionary item at a time. */
  method BuildCandidatesText(resumes: Dict) returns (text: string)
    requires resumes.Valid()
    ensures text == CandidatesSection(resumes.order, resumes.entries)
  {
    text := "";
    for i := 0 to |resumes.order|
      invariant text == CandidatesSection(resumes.order[..i], resumes.entries)
    {
      var name := resumes.order[i];
      assert resumes.order[..i + 1][..i] == resumes.order[..i];
      text := text + CandidateBlock(name, resumes.entries[name]);
    }
    assert resumes.order[..|resumes.order|] == resumes.order;
  }

  /** The fixed instruction text before the job description. */
  const PromptHead := "\n    Act as a Senior Technical Recruiter and ATS System.\n    \n    JOB DESCRIPTION:\n    "

  /** The fixed instruction text between the job description and the candidates. */
  const PromptMiddle := "\n    \n    CANDIDATES:\n    "

  /** The fixed instruction text after the candidates: the task and the JSON format asked for. */
  const PromptTail :=
    "\n    \n    TASK:\n"
    + "    1. Analyze all candidates against the JD.\n"
    + "    2. Rank them from #1 (Best Fit) to Last.\n"
    + "    3. Return the result strictly as a JSON list of objects.\n"
    + "    \n    JSON FORMAT:\n    [\n        {\n"
    + "            \"rank\": 1,\n"
    + "            \"filename\": \"resume_filename.pdf\",\n"
    + "            \"candidate_name\": \"extracted name\",\n"
    + "            \"match_percentage\": 85,\n"
    + "            \"skills_match\": \"Python, SQL, AWS\",\n"
    + "            \"missing_skills\": \"Docker, Kubernetes\",\n"
    + "            \"reason\": \"Strongest match because...\"\n"
    + "        },\n        ...\n    ]\n    \n"
    + "    Do not output markdown code blocks. Just the raw JSON string.\n    "

  /** The prompt for `resumes` and job description `jd`. */
  function Prompt(resumes: Dict, jd: string): string
    requires resumes.Valid()
  {
    PromptHead + Take(jd, JobDescriptionLimit) + PromptMiddle
      + CandidatesSection(resumes.order, resumes.entries) + PromptTail
  }

  /** A slot between fixed parts determines the whole and is determined by it. */
  lemma SlotCancel(head: string, t1: string, t2: string, middle: string, section: string, tail: string)
    ensures head + t1 + middle + section + tail == head + t2 + middle + section + tail <==> t1 == t2
  {
    var rest := middle + section + tail;
    assert head + t1 + middle + section + tail == head + t1 + rest;
    assert head + t2 + middle + section + tail == head + t2 + rest;
    if head + t1 + rest == head + t2 + rest {
      ConcatCancel(head, t1, rest, t2);
    }
  }

  /** The prompt carries the job description's first 5000 characters and nothing beyond them. */
  lemma PromptTruncatesJobDescription(resumes: Dict, jd1: string, jd2: string)
    requires resumes.Valid()
    ensures Prompt(resumes, jd1) == Prompt(resumes, jd2)
        <==> Take(jd1, JobDescriptionLimit) == Take(jd2, JobDescriptionLimit)
  {
    SlotCancel(PromptHead, Take(jd1, JobDescriptionLimit), Take(jd2, JobDescriptionLimit),
      PromptMiddle, CandidatesSection(resumes.order, resumes.entries), PromptTail);
  }

  /** The prompt depends on each candidate's text only through its first 10000 characters. */
  lemma PromptTruncatesCandidates(r1: Dict, r2: Dict, jd: string)
    requires r1.Valid() && r2.Valid() && r1.order == r2.order
    requires forall k :: k in r1.order ==> Take(r1.entries[k], CandidateTextLimit) == Take(r2.entries[k], CandidateTextLimit)
    ensures Prompt(r1, jd) == Prompt(r2, jd)
  {
    CandidatesSectionTruncates(r1.order, r1.entries, r2.entries);
  }

  method BuildPrompt(resumes: Dict, jd: string) returns (prompt: string)
    requires resumes.Valid()
    ensures prompt == Prompt(resumes, jd)
  {
    var candidates := BuildCandidatesText(resumes);
    prompt := PromptHead + Take(jd, JobDescriptionLimit) + PromptMiddle + candidates + PromptTail;
  }

  const JsonFence := "```json"
  const Fence := "```"

  /** `text.replace("```json", "").replace("```", "").strip()`. */
  function CleanResponse(text: string): (r: string)
    ensures Trimmed(r)
    ensures |r| <= |text|
  {
    Strip(RemoveAll(RemoveAll(text, JsonFence), Fence))
  }

  lemma NoLeadingBacktickKept(u: string)
    requires u == [] || u[0] != '`'
    ensures var r := RemoveAll(u, Fence); r == [] || r[0] != '`'
  {
    if |u| >= |Fence| {
      assert u[..|Fence|][0] == u[0];
    }
  }

  lemma NoLeadingDoubleBacktickKept(t: string)
    requires !StartsWith(t, "``")
    ensures !StartsWith(RemoveAll(t, Fence), "``")
  {
    if |t| >= |Fence| {
      assert t[..|Fence|] != Fence by {
        assert t[..|Fence|][..2] == t[..2];
      }
      if t[0] == '`' {
        NoLeadingBacktickKept(t[1..]);
      }
    }
  }

  /** Removing every "```" left to right leaves no "```" behind, not even one formed across a removed fence. */
  lemma {:induction false} RemoveFenceLeavesNone(s: string)
    ensures !Contains(RemoveAll(s, Fence), Fence)
    decreases |s|
  {
    var r := RemoveAll(s, Fence);
    if |s| < |Fence| {
      assert |r| < |Fence|;
    } else if s[..|Fence|] == Fence {
      RemoveFenceLeavesNone(s[|Fence|..]);
    } else {
      var rest := RemoveAll(s[1..], Fence);
      RemoveFenceLeavesNone(s[1..]);
      assert r == [s[0]] + rest;
      forall i | 0 <= i <= |r| ensures !OccursAt(r, Fence, i) {
        if i > 0 {
          assert !OccursAt(rest, Fence, i - 1);
          if i + |Fence| <= |r| {
            assert r[i..i + |Fence|] == rest[i - 1..i - 1 + |Fence|];
          }
        } else if s[0] == '`' {
          assert s[..|Fence|] == [s[0]] + s[1..][..2];
          NoLeadingDoubleBacktickKept(s[1..]);
          if |r| >= |Fence| {
            assert r[..|Fence|] == [s[0]] + rest[..2];
            assert rest[..2] != "``";
            assert Fence == "`" + "``";
          }
        }
      }
    }
  }

  /** The cleaned response never contains "```". */
  lemma CleanResponseHasNoFence(text: string)
    ensures !Contains(CleanResponse(text), Fence)
  {
    var s := RemoveAll(RemoveAll(text, JsonFence), Fence);
    RemoveFenceLeavesNone(RemoveAll(text, JsonFence));
    StripAvoids(s, Fence);
  }

  predicate NoBacktick(s: string)
  {
    forall i :: 0 <= i < |s| ==> s[i] != '`'
  }

  /** A payload with no backtick and no surrounding whitespace comes out of a "```json" fence unchanged, and is left unchanged when bare. */
  lemma FencedPayloadRecovered(payload: string)
    requires NoBacktick(payload) && Trimmed(payload)
    ensures CleanResponse("```json\n" + payload + "\n```") == payload
    ensures CleanResponse(payload) == payload
  {
    var inner := "\n" + payload + "\n";
    assert NoBacktick(inner);
    var fenced := "```json\n" + payload + "\n```";
    assert fenced == JsonFence + (inner + Fence);
    assert fenced[..|JsonFence|] == JsonFence;
    assert fenced[|JsonFence|..] == inner + Fence;
    RemoveAllSkipsPrefix(inner, Fence, JsonFence);
    assert RemoveAll(fenced, JsonFence) == inner + Fence;
    RemoveAllSkipsPrefix(inner, Fence, Fence);
    assert RemoveAll(Fence, Fence) == RemoveAll("", Fence);
    assert RemoveAll(inner + Fence, Fence) == inner + "";
    assert inner + "" == "\n" + payload + "\n";
    StripPadded("\n", payload, "\n");

    RemoveAllSkipsPrefix(payload, "", JsonFence);
    RemoveAllSkipsPrefix(payload, "", Fence);
    assert payload + "" == payload;
  }

  /** What the generative model's call gives: the reply's text, or the message of the exception it raises. */
  datatype Response = Generated(text: string) | RequestFailed(message: string)

  /** What `json.loads` gives: a value, or the message of the exception it raises. */
  datatype Decoded = Decoded(value: Json) | DecodeFailed(message: string)

  /** `[{"filename": "Error", "reason": message}]`. */
  function Sentinel(message: string): Json
  {
    JArray([JObject(map["filename" := JString("Error"), "reason" := JString(message)])])
  }

  /** What `rank_resumes_with_gemini` returns once `prompt` is built. */
  function RankingResult(prompt: string, generate: string -> Response, decode: string -> Decoded): Json
  {
    match generate(prompt)
    case RequestFailed(e) => Sentinel(e)
    case Generated(text) =>
      match decode(CleanResponse(text))
      case DecodeFailed(e) => Sentinel(e)
      case Decoded(v) => v
  }

  method RankResumes(resumes: Dict, jd: string, generate: string -> Response, decode: string -> Decoded)
    returns (result: Json)
    requires resumes.Valid()
    ensures result == RankingResult(Prompt(resumes, jd), generate, decode)
  {
    var prompt := BuildPrompt(resumes, jd);
    match generate(prompt)
    case RequestFailed(e) =>
      result := Sentinel(e);
    case Generated(text) =>
      var cleaned := CleanResponse(text);
      match decode(cleaned)
      case DecodeFailed(e) =>
        result := Sentinel(e);
      case Decoded(v) =>
        result := v;
  }

  /** A failure of the request or of the decoding yields exactly one record, with filename "Error" and the failure's message as reason. */
  lemma FailureYieldsSentinel(prompt: string, generate: string -> Response, decode: string -> Decoded)
    requires generate(prompt).RequestFailed?
          || decode(CleanResponse(generate(prompt).text)).DecodeFailed?
    ensures var r := RankingResult(prompt, generate, decode);
      && r.JArray? && |r.items| == 1 && r.items[0].JObject?
      && r.items[0].fields.Keys == {"filename", "reason"}
      && r.items[0].fields["filename"] == JString("Error")
      && r.items[0].fields["reason"] == JString(
           if generate(prompt).RequestFailed? then generate(prompt).message
           else decode(CleanResponse(generate(prompt).text)).message)
  {
  }

  /** A reply wrapped in a "```json" fence decodes exactly as the bare payload would. */
  lemma FencedReplyDecodesLikeBare(
    prompt: string, payload: string, fenced: string -> Response, bare: string -> Response, decode: string -> Decoded)
    requires NoBacktick(payload) && Trimmed(payload)
    requires fenced(prompt) == Generated("```json\n" + payload + "\n```")
    requires bare(prompt) == Generated(payload)
    ensures RankingResult(prompt, fenced, decode) == RankingResult(prompt, bare, decode)
  {
    FencedPayloadRecovered(payload);
  }
}
