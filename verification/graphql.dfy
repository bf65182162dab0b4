/**
 * The GitHub GraphQL client's request loop (src/graphql.rs, `request`).
 *
 * The network is replaced by the sequence of replies the server gives to
 * successive sends of the same query; sleeping is replaced by recording how
 * many seconds each wait would last.
 */
module GraphQL {
  import opened Wrappers
  import opened Errors
  import opened Numerals

  /** Seconds to wait after a 403 when the server does not say how long. */
  const DEFAULT_WAIT: nat := 3

  /** HTTP 403, which GitHub returns when the rate limit is reached. */
  const FORBIDDEN: int := 403

  /** The three queries the client renders from its templates. */
  datatype Query =
    | Repos(username: string, cursor: string)
    | CursorOrLastCommit(name: string, owner: string)
    | LastCommit(name: string, owner: string, cursor: string)

  type Byte = b: int | 0 <= b < 256

  /** What one `send` gives back: a transport failure, or a response with its
    * status, its `retry-after` header value if present, and its body. */
  datatype Reply =
    | TransportFailure(reason: string)
    | Received(status: int, retryAfter: Option<seq<Byte>>, body: string)

  predicate IsSuccess(status: int) {
    200 <= status <= 299
  }

  predicate IsRateLimited(reply: Reply) {
    reply.Received? && reply.status == FORBIDDEN
  }

  /** What `http::HeaderValue::to_str` accepts: a tab or a printable ASCII byte. */
  predicate IsVisibleAscii(b: Byte) {
    b == 9 || 32 <= b < 127
  }

  /** `HeaderValue::to_str`: the header as text when every byte is visible ASCII. */
  function HeaderText(value: seq<Byte>): Option<string> {
    if value == [] then Some("")
    else
      match HeaderText(value[..|value| - 1])
      case None => None
      case Some(text) =>
        var b := value[|value| - 1];
        if IsVisibleAscii(b) then Some(text + [b as char]) else None
  }

  /** A header is text exactly when all its bytes are visible ASCII, and then the text has the same characters. */
  lemma {:induction false} HeaderTextReadsBytes(value: seq<Byte>)
    ensures HeaderText(value).Some? <==> forall i :: 0 <= i < |value| ==> IsVisibleAscii(value[i])
    ensures HeaderText(value).Some? ==>
      |HeaderText(value).value| == |value| && forall i :: 0 <= i < |value| ==> HeaderText(value).value[i] as int == value[i]
  {
    if value != [] {
      var init := value[..|value| - 1];
      HeaderTextReadsBytes(init);
      assert forall i :: 0 <= i < |init| ==> init[i] == value[i];
    }
  }

  /**
   * Seconds slept after a 403: the `retry-after` header read as a `u64`;
   * DEFAULT_WAIT when the header is missing, and also when it is not visible
   * ASCII (the source then parses the text of DEFAULT_WAIT) or not a number.
   */
  function RetryWait(retryAfter: Option<seq<Byte>>): (w: nat)
    ensures w <= U64_MAX
    ensures retryAfter.None? ==> w == DEFAULT_WAIT
  {
    match retryAfter
    case None => DEFAULT_WAIT
    case Some(value) =>
      var text := match HeaderText(value) case Some(t) => t case None => Decimal(DEFAULT_WAIT);
      match ParseU64(text)
      case Some(n) => n
      case None => DEFAULT_WAIT
  }

  /** The bytes of an ASCII string. */
  function AsciiBytes(s: string): (bytes: seq<Byte>)
    requires forall i :: 0 <= i < |s| ==> s[i] as int < 128
    ensures |bytes| == |s|
  {
    seq(|s|, i requires 0 <= i < |s| => s[i] as int as Byte)
  }

  /** A server that sends `retry-after: n` gets a wait of exactly n seconds. */
  lemma RetryWaitReadsHeader(n: nat)
    requires n <= U64_MAX
    ensures RetryWait(Some(AsciiBytes(Decimal(n)))) == n
  {
    var s := Decimal(n);
    var bytes := AsciiBytes(s);
    assert forall i :: 0 <= i < |bytes| ==> IsVisibleAscii(bytes[i]);
    HeaderTextReadsBytes(bytes);
    assert HeaderText(bytes).value == s;
    ParseDecimal(n);
  }

  /** A header that is not visible ASCII, or not a `u64`, gives DEFAULT_WAIT. */
  lemma RetryWaitFallsBack(value: seq<Byte>)
    requires HeaderText(value).None? || ParseU64(HeaderText(value).value).None?
    ensures RetryWait(Some(value)) == DEFAULT_WAIT
  {
    ParseDecimal(DEFAULT_WAIT);
  }

  /** How `request` answers a reply that is not a 403. */
  function Outcome(reply: Reply): Result<Reply, Error>
    requires !IsRateLimited(reply)
  {
    match reply
    case TransportFailure(reason) => Err(SendFailed(reason))
    case Received(status, _, body) =>
      if IsSuccess(status) then Ok(reply) else Err(StatusFailed(status, body))
  }

  /** The index of the first reply that is not a 403, at or after `from`. */
  function FirstSettledFrom(replies: seq<Reply>, from: nat): (k: nat)
    requires exists i :: from <= i < |replies| && !IsRateLimited(replies[i])
    ensures from <= k < |replies| && !IsRateLimited(replies[k])
    ensures forall j :: from <= j < k ==> IsRateLimited(replies[j])
    decreases |replies| - from
  {
    if !IsRateLimited(replies[from]) then from else FirstSettledFrom(replies, from + 1)
  }

  function FirstSettled(replies: seq<Reply>): (k: nat)
    requires exists i :: 0 <= i < |replies| && !IsRateLimited(replies[i])
    ensures k < |replies| && !IsRateLimited(replies[k])
    ensures forall j :: 0 <= j < k ==> IsRateLimited(replies[j])
  {
    FirstSettledFrom(replies, 0)
  }

  /** The seconds slept after each of a run of 403 replies, in order, when a reply's header asks for `wait(header)`. */
  function WaitsFor(limited: seq<Reply>, wait: Option<seq<Byte>> -> nat): seq<nat>
    requires forall j :: 0 <= j < |limited| ==> IsRateLimited(limited[j])
  {
    if limited == [] then []
    else
      var last := limited[|limited| - 1];
      assert IsRateLimited(last);
      WaitsFor(limited[..|limited| - 1], wait) + [wait(last.retryAfter)]
  }

  /** The seconds `request` sleeps after each of a run of 403 replies. */
  function Waits(limited: seq<Reply>): seq<nat>
    requires forall j :: 0 <= j < |limited| ==> IsRateLimited(limited[j])
  {
    WaitsFor(limited, RetryWait)
  }

  /** One wait per 403, each the one its own reply asked for. */
  lemma {:induction false} WaitsFollowReplies(limited: seq<Reply>, wait: Option<seq<Byte>> -> nat)
    requires forall j :: 0 <= j < |limited| ==> IsRateLimited(limited[j])
    ensures |WaitsFor(limited, wait)| == |limited|
    ensures forall j :: 0 <= j < |limited| ==> WaitsFor(limited, wait)[j] == wait(limited[j].retryAfter)
  {
    if limited != [] {
      WaitsFollowReplies(limited[..|limited| - 1], wait);
    }
  }

  /**
   * `GitHubGraphQL::request`. `replies[i]` is what the server answers to the
   * i-th send. Every 403 is followed by a wait and a resend of the identical
   * query; the first reply that is not a 403 decides the result: a success
   * status gives the response, any other status an error with status and
   * body, a transport failure its error. The source requires that the server
   * eventually stops answering 403.
   */
  method Request(query: string, replies: seq<Reply>) returns (r: Result<Reply, Error>, sent: seq<string>, waits: seq<nat>)
    requires exists i :: 0 <= i < |replies| && !IsRateLimited(replies[i])
    ensures |sent| == FirstSettled(replies) + 1 && |waits| == FirstSettled(replies)
    ensures forall q <- sent :: q == query
    ensures waits == Waits(replies[..FirstSettled(replies)])
    ensures r == Outcome(replies[FirstSettled(replies)])
    ensures r.Ok? ==> r.value.Received? && IsSuccess(r.value.status)
  {
    ghost var k := FirstSettled(replies);
    var i := 0;
    sent := [query];
    waits := [];
    var reply := replies[0];
    while IsRateLimited(reply)
      invariant 0 <= i <= k && reply == replies[i]
      invariant |sent| == i + 1 && |waits| == i
      invariant forall q <- sent :: q == query
      invariant waits == Waits(replies[..i])
      decreases k - i
    {
      assert replies[..i + 1][..i] == replies[..i];
      waits := waits + [RetryWait(reply.retryAfter)];
      sent := sent + [query];
      i := i + 1;
      reply := replies[i];
    }
    r := Outcome(reply);
  }

  /** One 403 followed by a success: exactly one retry, no error. */
  lemma OneRetryThenSuccess(limited: Reply, ok: Reply)
    requires IsRateLimited(limited) && ok.Received? && IsSuccess(ok.status)
    ensures !IsRateLimited([limited, ok][1]) && FirstSettled([limited, ok]) == 1
    ensures Outcome([limited, ok][1]) == Ok(ok)
  {
  }
}
