/**
 * The retry engine of `Battery.__getBMSData`: a bounded connect loop, then the status,
 * cell and name exchanges, each retried up to ten times with its buffer cleared at the
 * start of every attempt, then `disconnect` and `exit`.
 *
 * The interactive gatttool process is replaced by an oracle that fixes, for every attempt
 * of every phase, whether the awaited prompt arrived within its timeout and with which text.
 * Because the engine is deterministic, such an oracle can describe every behaviour of the
 * real channel. An attempt index past the end of a phase's list is a timeout.
 */
module Session {
  import opened Wrappers
  import opened Wire

  /** One awaited gatttool notification: it timed out, or it arrived with this hex text. */
  datatype Notice = Timeout | Notification(text: string)

  /** The two notifications one status attempt waits for; the second is awaited only after the first. */
  datatype StatusAttempt = StatusAttempt(first: Notice, second: Notice)

  datatype Transport = Transport(
    connect: seq<bool>,          // attempt i saw "Connection successful" in time
    status: seq<StatusAttempt>,
    cells: seq<Notice>,
    name: seq<Notice>)

  /** The replies of the three exchanges, as text, before any decoding. */
  datatype Buffers = Buffers(status: string, cells: string, name: string)

  const MaxAttempts: nat := 10

  const ConnectLine := "connect"
  const StatusRequest := "char-write-req 0x0015 dda50300fffd77"
  const CellsRequest := "char-write-req 0x0015 dda50400fffc77"
  const NameRequest := "char-write-req 0x0015 dda50500fffb77"
  const DisconnectLine := "disconnect"
  const ExitLine := "exit"

  /** `n` copies of the command line `line`. */
  function Repeat(line: string, n: nat): (r: seq<string>)
    ensures |r| == n && forall i :: 0 <= i < n ==> r[i] == line
  {
    if n == 0 then [] else Repeat(line, n - 1) + [line]
  }

  // ---------------------------------------------------------------- the oracle, attempt by attempt

  predicate ConnectedAt(t: Transport, i: nat) {
    i < |t.connect| && t.connect[i]
  }

  function StatusAt(t: Transport, i: nat): StatusAttempt {
    if i < |t.status| then t.status[i] else StatusAttempt(Timeout, Timeout)
  }

  /** Status attempt `i` received both of its notifications. */
  predicate StatusCompleteAt(t: Transport, i: nat) {
    StatusAt(t, i).first.Notification? && StatusAt(t, i).second.Notification?
  }

  function NoticeAt(replies: seq<Notice>, i: nat): Notice {
    if i < |replies| then replies[i] else Timeout
  }

  // ---------------------------------------------------------------- first successful attempts

  /** The first connect attempt in `from..9` that succeeds. */
  function FirstConnected(t: Transport, from: nat): (r: Option<nat>)
    ensures r.Some? ==> from <= r.value < MaxAttempts && ConnectedAt(t, r.value)
    ensures r.Some? ==> forall j :: from <= j < r.value ==> !ConnectedAt(t, j)
    ensures r.None? ==> forall j :: from <= j < MaxAttempts ==> !ConnectedAt(t, j)
    decreases MaxAttempts - from
  {
    if from >= MaxAttempts then None
    else if ConnectedAt(t, from) then Some(from)
    else FirstConnected(t, from + 1)
  }

  /** The first status attempt in `from..9` that receives both notifications. */
  function FirstComplete(t: Transport, from: nat): (r: Option<nat>)
    ensures r.Some? ==> from <= r.value < MaxAttempts && StatusCompleteAt(t, r.value)
    ensures r.Some? ==> forall j :: from <= j < r.value ==> !StatusCompleteAt(t, j)
    ensures r.None? ==> forall j :: from <= j < MaxAttempts ==> !StatusCompleteAt(t, j)
    decreases MaxAttempts - from
  {
    if from >= MaxAttempts then None
    else if StatusCompleteAt(t, from) then Some(from)
    else FirstComplete(t, from + 1)
  }

  /** The first attempt in `from..9` of a one-notification exchange that is answered. */
  function FirstNotified(replies: seq<Notice>, from: nat): (r: Option<nat>)
    ensures r.Some? ==> from <= r.value < MaxAttempts && NoticeAt(replies, r.value).Notification?
    ensures r.Some? ==> forall j :: from <= j < r.value ==> NoticeAt(replies, j).Timeout?
    ensures r.None? ==> forall j :: from <= j < MaxAttempts ==> NoticeAt(replies, j).Timeout?
    decreases MaxAttempts - from
  {
    if from >= MaxAttempts then None
    else if NoticeAt(replies, from).Notification? then Some(from)
    else FirstNotified(replies, from + 1)
  }

  /** How many attempts a loop makes: up to and including the first success, or all ten. */
  function Attempts(first: Option<nat>): nat {
    match first
    case Some(i) => i + 1
    case None => MaxAttempts
  }

  predicate Connects(t: Transport) {
    FirstConnected(t, 0).Some?
  }

  /** The status buffer: both notifications of the first complete attempt, or empty. */
  function StatusReply(t: Transport): string {
    match FirstComplete(t, 0)
    case Some(i) => StatusAt(t, i).first.text + StatusAt(t, i).second.text
    case None => ""
  }

  /** The buffer of a one-notification exchange: the first answer, or empty. */
  function Reply(replies: seq<Notice>): string {
    match FirstNotified(replies, 0)
    case Some(i) => NoticeAt(replies, i).text
    case None => ""
  }

  /** The three buffers a connected session hands to the decoder. */
  function SessionBuffers(t: Transport): Buffers {
    Buffers(StatusReply(t), Reply(t.cells), Reply(t.name))
  }

  /** Every command line the session sends, in order, as the loops below send them. */
  function SessionLines(t: Transport): seq<string> {
    if Connects(t) then
      Repeat(ConnectLine, Attempts(FirstConnected(t, 0)))
      + Repeat(StatusRequest, Attempts(FirstComplete(t, 0)))
      + Repeat(CellsRequest, Attempts(FirstNotified(t.cells, 0)))
      + Repeat(NameRequest, Attempts(FirstNotified(t.name, 0)))
      + [DisconnectLine, ExitLine]
    else Repeat(ConnectLine, MaxAttempts) + [ExitLine]
  }

  // ---------------------------------------------------------------- the loops

  /**
   * The connect loop: send `connect` and wait for "Connection successful", at most ten
   * times; when every attempt times out, send `exit` and give up.
   */
  method ConnectLoop(t: Transport) returns (connected: bool, sent: seq<string>)
    ensures connected <==> exists i :: 0 <= i < MaxAttempts && ConnectedAt(t, i)
    ensures connected <==> Connects(t)
    ensures connected ==> sent == Repeat(ConnectLine, Attempts(FirstConnected(t, 0)))
    ensures !connected ==> sent == Repeat(ConnectLine, MaxAttempts) + [ExitLine]
  {
    sent := [];
    connected := false;
    var attempt := 0;
    while attempt < MaxAttempts && !connected
      invariant 0 <= attempt <= MaxAttempts
      invariant sent == Repeat(ConnectLine, attempt)
      invariant !connected ==> forall j :: 0 <= j < attempt ==> !ConnectedAt(t, j)
      invariant connected ==> attempt >= 1 && FirstConnected(t, 0) == Some(attempt - 1)
    {
      sent := sent + [ConnectLine];
      if ConnectedAt(t, attempt) {
        connected := true;
      }
      attempt := attempt + 1;
    }
    if !connected {
      sent := sent + [ExitLine];
    }
  }

  /**
   * The status exchange: each attempt clears the buffer, writes the request and appends
   * the first and then the second notification; a timeout on either abandons the attempt.
   * Ten failed attempts leave the buffer empty.
   */
  method StatusExchange(t: Transport) returns (resp: string, sent: seq<string>)
    ensures sent == Repeat(StatusRequest, Attempts(FirstComplete(t, 0)))
    ensures resp == StatusReply(t)
  {
    resp, sent := "", [];
    var attempt := 0;
    var done := false;
    while attempt < MaxAttempts && !done
      invariant 0 <= attempt <= MaxAttempts
      invariant sent == Repeat(StatusRequest, attempt)
      invariant !done ==> forall j :: 0 <= j < attempt ==> !StatusCompleteAt(t, j)
      invariant done ==> attempt >= 1 && FirstComplete(t, 0) == Some(attempt - 1) && resp == StatusReply(t)
    {
      resp := "";
      sent := sent + [StatusRequest];
      var a := StatusAt(t, attempt);
      if a.first.Notification? {
        resp := resp + a.first.text;
        if a.second.Notification? {
          resp := resp + a.second.text;
          done := true;
        }
      }
      attempt := attempt + 1;
    }
    if !done {
      resp := "";
    }
  }

  /**
   * The cell and name exchanges: each attempt clears the buffer, writes `request` and
   * waits for one notification; ten timeouts leave the buffer empty.
   */
  method Exchange(request: string, replies: seq<Notice>) returns (resp: string, sent: seq<string>)
    ensures sent == Repeat(request, Attempts(FirstNotified(replies, 0)))
    ensures resp == Reply(replies)
  {
    resp, sent := "", [];
    var attempt := 0;
    var done := false;
    while attempt < MaxAttempts && !done
      invariant 0 <= attempt <= MaxAttempts
      invariant sent == Repeat(request, attempt)
      invariant !done ==> forall j :: 0 <= j < attempt ==> NoticeAt(replies, j).Timeout?
      invariant done ==> attempt >= 1 && FirstNotified(replies, 0) == Some(attempt - 1) && resp == Reply(replies)
    {
      resp := "";
      sent := sent + [request];
      var n := NoticeAt(replies, attempt);
      if n.Notification? {
        resp := resp + n.text;
        done := true;
      }
      attempt := attempt + 1;
    }
    if !done {
      resp := "";
    }
  }

  /**
   * One session: connect, then status, cells and name in that order, then `disconnect`
   * and `exit`. `None` is the `-1` of a connect timeout, after which nothing is exchanged.
   */
  method RunSession(t: Transport) returns (sent: seq<string>, r: Option<Buffers>)
    ensures r.None? <==> !Connects(t)
    ensures r.Some? ==> r.value == SessionBuffers(t)
    ensures sent == SessionLines(t)
  {
    var connected, connectLines := ConnectLoop(t);
    if !connected {
      return connectLines, None;
    }
    var resp, statusLines := StatusExchange(t);
    var resp2, cellLines := Exchange(CellsRequest, t.cells);
    var resp3, nameLines := Exchange(NameRequest, t.name);
    sent := connectLines + statusLines + cellLines + nameLines + [DisconnectLine, ExitLine];
    r := Some(Buffers(resp, resp2, resp3));
  }

  // ---------------------------------------------------------------- what a session does

  /** Every loop makes at least one and at most ten attempts. */
  lemma AttemptsBounded(first: Option<nat>)
    requires first.Some? ==> first.value < MaxAttempts
    ensures 1 <= Attempts(first) <= MaxAttempts
  {
  }

  /**
   * The connect loop gives up exactly when all ten attempts time out; it has then sent ten
   * `connect` lines and one `exit`, and no request.
   */
  lemma ConnectGivesUp(t: Transport)
    ensures !Connects(t) <==> forall i :: 0 <= i < MaxAttempts ==> !ConnectedAt(t, i)
    ensures !Connects(t) ==>
      (|SessionLines(t)| == MaxAttempts + 1
       && SessionLines(t)[MaxAttempts] == ExitLine
       && forall k :: 0 <= k < MaxAttempts ==> SessionLines(t)[k] == ConnectLine)
  {
    if !Connects(t) {
      var r := Repeat(ConnectLine, MaxAttempts);
      assert SessionLines(t) == r + [ExitLine];
      assert forall k :: 0 <= k < MaxAttempts ==> SessionLines(t)[k] == r[k];
    } else {
      var i := FirstConnected(t, 0).value;
      assert ConnectedAt(t, i);
    }
  }

  /** The connect loop stops at the first attempt that succeeds: the status request comes next. */
  lemma ConnectStopsAtFirstSuccess(t: Transport, i: nat)
    requires i < MaxAttempts && ConnectedAt(t, i)
    requires forall j :: 0 <= j < i ==> !ConnectedAt(t, j)
    ensures Connects(t)
    ensures |SessionLines(t)| > i + 1
    ensures forall k :: 0 <= k <= i ==> SessionLines(t)[k] == ConnectLine
    ensures SessionLines(t)[i + 1] == StatusRequest
  {
    FirstConnectedIs(t, 0, i);
    AttemptsBounded(FirstComplete(t, 0));
    SessionHead(SessionLines(t), i + 1, Attempts(FirstComplete(t, 0)),
      Attempts(FirstNotified(t.cells, 0)), Attempts(FirstNotified(t.name, 0)));
  }

  /** In `connect`^a status^b cells^c name^d `disconnect` `exit`, the first status request follows the connects. */
  lemma SessionHead(lines: seq<string>, a: nat, b: nat, c: nat, d: nat)
    requires b >= 1
    requires lines == Repeat(ConnectLine, a) + Repeat(StatusRequest, b) + Repeat(CellsRequest, c)
      + Repeat(NameRequest, d) + [DisconnectLine, ExitLine]
    ensures |lines| > a
    ensures forall k :: 0 <= k < a ==> lines[k] == ConnectLine
    ensures lines[a] == StatusRequest
  {
  }

  /** `FirstConnected` finds the first success at or after `from`. */
  lemma {:induction false} FirstConnectedIs(t: Transport, from: nat, i: nat)
    requires from <= i < MaxAttempts && ConnectedAt(t, i)
    requires forall j :: from <= j < i ==> !ConnectedAt(t, j)
    ensures FirstConnected(t, from) == Some(i)
    decreases i - from
  {
    if from < i {
      FirstConnectedIs(t, from + 1, i);
    }
  }

  /** The stage each command line belongs to, in the order the session runs them. */
  function Stage(line: string): nat {
    if line == ConnectLine then 0
    else if line == StatusRequest then 1
    else if line == CellsRequest then 2
    else if line == NameRequest then 3
    else if line == DisconnectLine then 4
    else 5
  }

  /** A connected session sends connects, then status, cell and name requests, then `disconnect` and `exit`. */
  lemma ConnectedSessionOrder(t: Transport)
    requires Connects(t)
    ensures |SessionLines(t)| <= 4 * MaxAttempts + 2
    ensures SessionLines(t)[|SessionLines(t)| - 2..] == [DisconnectLine, ExitLine]
    ensures forall i, j :: 0 <= i < j < |SessionLines(t)| ==> Stage(SessionLines(t)[i]) <= Stage(SessionLines(t)[j])
  {
    var a, b := Attempts(FirstConnected(t, 0)), Attempts(FirstComplete(t, 0));
    var c, d := Attempts(FirstNotified(t.cells, 0)), Attempts(FirstNotified(t.name, 0));
    AttemptsBounded(FirstConnected(t, 0));
    AttemptsBounded(FirstComplete(t, 0));
    AttemptsBounded(FirstNotified(t.cells, 0));
    AttemptsBounded(FirstNotified(t.name, 0));
    var lines := SessionLines(t);
    StagesOfSession(lines, a, b, c, d);
  }

  /** The stages of the lines `connect`^a status^b cells^c name^d `disconnect` `exit` never decrease. */
  lemma StagesOfSession(lines: seq<string>, a: nat, b: nat, c: nat, d: nat)
    requires lines == Repeat(ConnectLine, a) + Repeat(StatusRequest, b) + Repeat(CellsRequest, c)
      + Repeat(NameRequest, d) + [DisconnectLine, ExitLine]
    ensures |lines| == a + b + c + d + 2
    ensures lines[|lines| - 2..] == [DisconnectLine, ExitLine]
    ensures forall i, j :: 0 <= i < j < |lines| ==> Stage(lines[i]) <= Stage(lines[j])
  {
    assert Stage(ConnectLine) == 0 && Stage(StatusRequest) == 1 && Stage(CellsRequest) == 2;
    assert Stage(NameRequest) == 3 && Stage(DisconnectLine) == 4 && Stage(ExitLine) == 5;
    forall k | 0 <= k < |lines|
      ensures Stage(lines[k]) == StageAt(k, a, b, c, d)
    {
    }
  }

  /** The stage of position `k` in a session that made `a`, `b`, `c`, `d` attempts per loop. */
  function StageAt(k: nat, a: nat, b: nat, c: nat, d: nat): nat {
    if k < a then 0
    else if k < a + b then 1
    else if k < a + b + c then 2
    else if k < a + b + c + d then 3
    else if k == a + b + c + d then 4
    else 5
  }

  /**
   * Each status attempt starts from an empty buffer: an attempt that did not receive both
   * notifications, whatever it did receive, leaves no trace in the status buffer.
   */
  lemma PartialStatusDiscarded(t: Transport, i: nat, a: StatusAttempt)
    requires i < |t.status| && !StatusCompleteAt(t, i)
    requires !(a.first.Notification? && a.second.Notification?)
    ensures StatusReply(t.(status := t.status[i := a])) == StatusReply(t)
  {
    var u := t.(status := t.status[i := a]);
    forall j | true
      ensures StatusCompleteAt(u, j) <==> StatusCompleteAt(t, j)
      ensures j != i ==> StatusAt(u, j) == StatusAt(t, j)
    {
    }
    FirstCompleteSame(t, u, 0);
  }

  /** Two channels whose status attempts complete at the same indices find the same first one. */
  lemma {:induction false} FirstCompleteSame(t: Transport, u: Transport, from: nat)
    requires forall j :: StatusCompleteAt(u, j) <==> StatusCompleteAt(t, j)
    ensures FirstComplete(u, from) == FirstComplete(t, from)
    decreases MaxAttempts - from
  {
    if from < MaxAttempts {
      FirstCompleteSame(t, u, from + 1);
    }
  }

  /** Ten status attempts without both notifications leave the status buffer empty. */
  lemma StatusExhausted(t: Transport)
    requires forall j :: 0 <= j < MaxAttempts ==> !StatusCompleteAt(t, j)
    ensures StatusReply(t) == ""
  {
  }

  /** A one-notification exchange keeps the text of the first answered attempt among the ten. */
  lemma ReplyIsFirstAnswer(replies: seq<Notice>, i: nat)
    requires i < MaxAttempts && NoticeAt(replies, i).Notification?
    requires forall j :: 0 <= j < i ==> NoticeAt(replies, j).Timeout?
    ensures Reply(replies) == NoticeAt(replies, i).text
  {
    FirstNotifiedIs(replies, 0, i);
  }

  lemma {:induction false} FirstNotifiedIs(replies: seq<Notice>, from: nat, i: nat)
    requires from <= i < MaxAttempts && NoticeAt(replies, i).Notification?
    requires forall j :: from <= j < i ==> NoticeAt(replies, j).Timeout?
    ensures FirstNotified(replies, from) == Some(i)
    decreases i - from
  {
    if from < i {
      FirstNotifiedIs(replies, from + 1, i);
    }
  }
}
