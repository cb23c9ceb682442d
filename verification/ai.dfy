/** What src/ai.ts does with the replies of the vendor calls. The calls
    themselves (Cohere chat, OpenAI moderation) and JSON.parse are oracles:
    each function takes the reply as a Result, Err when the call threw. */
module Ai {
  import opened Common

  // ---------------------------------------------------------- generateTitle

  /** `text.replace(/"/g, "")`: every double quote removed. */
  function StripQuotes(s: string): (r: string)
    ensures '"' !in r
    ensures |r| <= |s|
  {
    if s == [] then []
    else (if s[0] == '"' then [] else [s[0]]) + StripQuotes(s[1..])
  }

  /** Every character of the reply other than a quote is kept, and nothing else. */
  lemma {:induction false} StripQuotesMembers(s: string)
    ensures forall c :: c in StripQuotes(s) <==> c in s && c != '"'
  {
    if s != [] {
      StripQuotesMembers(s[1..]);
      assert s == [s[0]] + s[1..];
    }
  }

  /** generateTitle past the chat call: a failed call propagates, otherwise
      the reply text comes back without its quotes. */
  function GenerateTitle(reply: Result<string>): (r: Result<string>)
    ensures reply.Err? ==> r == reply
    ensures reply.Ok? ==> r.Ok? && '"' !in r.value && |r.value| <= |reply.value|
    ensures reply.Ok? ==> forall c :: c in r.value <==> c in reply.value && c != '"'
  {
    match reply
    case Err(f) => Err(f)
    case Ok(text) =>
      StripQuotesMembers(text);
      Ok(StripQuotes(text))
  }

  /** Removing quotes works piece by piece, so the other characters keep their order. */
  lemma {:induction false} StripQuotesAppend(a: string, b: string)
    ensures StripQuotes(a + b) == StripQuotes(a) + StripQuotes(b)
  {
    if a == [] {
      assert a + b == b;
    } else {
      var head := if a[0] == '"' then [] else [a[0]];
      assert (a + b)[0] == a[0] && (a + b)[1..] == a[1..] + b;
      assert StripQuotes(a + b) == head + StripQuotes(a[1..] + b);
      StripQuotesAppend(a[1..], b);
      assert StripQuotes(a) == head + StripQuotes(a[1..]);
    }
  }

  /** A text without quotes is left exactly as it is. */
  lemma {:induction false} StripQuotesKeepsQuoteFree(s: string)
    requires '"' !in s
    ensures StripQuotes(s) == s
  {
    if s != [] {
      StripQuotesKeepsQuoteFree(s[1..]);
    }
  }

  lemma StripQuotesIdempotent(s: string)
    ensures StripQuotes(StripQuotes(s)) == StripQuotes(s)
  {
    StripQuotesKeepsQuoteFree(StripQuotes(s));
  }

  /** The title is shorter than the reply by exactly its number of quotes. */
  lemma {:induction false} StripQuotesLength(s: string)
    ensures |StripQuotes(s)| == |s| - multiset(s)['"']
  {
    if s != [] {
      StripQuotesLength(s[1..]);
      assert s == [s[0]] + s[1..];
    }
  }

  // ---------------------------------------------------- estimateTimeAndSize

  /** The object JSON.parse gives for the schema {time: integer, size: string};
      a field that is missing or null is None. */
  datatype ParsedEstimate = ParsedEstimate(time: Option<int>, size: Option<string>)

  datatype Estimate = Estimate(time: int, size: string)

  /** `if (!result.size || !result.time) throw`, else `return result`. The
      check is on truthiness, so a time of 0 is refused like a missing one;
      neither the sign of the time nor the value of the size is checked. */
  function EstimateTimeAndSize(parsed: Result<ParsedEstimate>): (r: Result<Estimate>)
    ensures parsed.Err? ==> r == Err(parsed.fault)
    ensures parsed.Ok? ==>
      (r.Ok? <==> && parsed.value.size.Some? && parsed.value.size.value != ""
                  && parsed.value.time.Some? && parsed.value.time.value != 0)
    ensures parsed.Ok? && r.Err? ==> r.fault == InvalidEstimate
    ensures r.Ok? ==> Some(r.value.time) == parsed.value.time && Some(r.value.size) == parsed.value.size
  {
    match parsed
    case Err(f) => Err(f)
    case Ok(p) =>
      if p.size.None? || p.size.value == "" || p.time.None? || p.time.value == 0 then Err(InvalidEstimate)
      else Ok(Estimate(p.time.value, p.size.value))
  }

  /** An estimate of 0 minutes ("less than 1 minute" in the prompt) is refused. */
  lemma ZeroTimeRefused(size: Option<string>)
    ensures EstimateTimeAndSize(Ok(ParsedEstimate(Some(0), size))) == Err(InvalidEstimate)
  {
  }

  /** Any non-zero time, negative ones too, and any non-empty size, not only
      "small", "medium" or "large", passes unchanged. */
  lemma AnyNonZeroTimeAndSizeAccepted(time: int, size: string)
    requires time != 0 && size != ""
    ensures EstimateTimeAndSize(Ok(ParsedEstimate(Some(time), Some(size)))) == Ok(Estimate(time, size))
  {
  }

  // -------------------------------------------------------- moderationCheck

  /** One entry of `moderation.results`. */
  datatype ModerationResult = ModerationResult(flagged: bool)

  /** `moderation.results[0].flagged === true`; an empty result list makes
      `results[0]` undefined and reading `.flagged` throws. */
  function ModerationCheck(reply: Result<seq<ModerationResult>>): (r: Result<bool>)
    ensures reply.Err? ==> r == Err(reply.fault)
    ensures reply.Ok? ==> (r.Ok? <==> reply.value != [])
    ensures reply.Ok? && r.Err? ==> r.fault == NoModerationResult
    ensures r.Ok? ==> (r.value <==> reply.value[0].flagged)
  {
    match reply
    case Err(f) => Err(f)
    case Ok(results) => if results == [] then Err(NoModerationResult) else Ok(results[0].flagged == true)
  }

  /** Only the first result decides. */
  lemma OnlyFirstResultCounts(first: ModerationResult, rest: seq<ModerationResult>, other: seq<ModerationResult>)
    ensures ModerationCheck(Ok([first] + rest)) == ModerationCheck(Ok([first] + other))
  {
  }
}
