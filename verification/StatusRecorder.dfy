// The response recorder of the access log (internal/api/server/middleware.go)
// over whole requests: what the handler calls, how it ends, and the recovery
// of a panic.
module StatusRecorder {

  /** A call on an http.ResponseWriter: WriteHeader(code) or Write of n bytes. */
  datatype Call = Header(code: int) | Body(n: nat)

  datatype State = State(status: int, wroteHeader: bool, forwarded: seq<Call>)

  /** The recorder as loggingMiddleware creates it. */
  const FRESH := State(200, false, [])

  /** net/http panics on any other code that reaches it before a header was written. */
  predicate ValidCode(code: int) { 100 <= code <= 999 }

  /** An informational status announces a later one; net/http does not commit to it. */
  predicate Informational(code: int) { 100 <= code <= 199 && code != 101 }

  predicate Panicking(s: State, c: Call) { c.Header? && !s.wroteHeader && !ValidCode(c.code) }

  /** What one call does to the recorder and the writer behind it; a panicking call reaches no client. */
  function Step(s: State, c: Call): State {
    match c
    case Header(code) =>
      if s.wroteHeader then s else State(code, true, s.forwarded + (if ValidCode(code) then [c] else []))
    case Body(_) => State(s.status, true, s.forwarded + [c])
  }

  datatype Ending = Returns | Panics

  /** What recoverMiddleware writes. */
  function Recovery(s: State, n: nat): State { Step(Step(s, Header(500)), Body(n)) }

  /** A whole request: the handler's calls up to a panic, and the recovery if there is one. */
  function Served(s: State, calls: seq<Call>, ending: Ending, n: nat): State
    decreases |calls|
  {
    if calls == [] then (if ending == Panics then Recovery(s, n) else s)
    else if Panicking(s, calls[0]) then Recovery(Step(s, calls[0]), n)
    else Served(Step(s, calls[0]), calls[1..], ending, n)
  }

  /** The wrapped writer, with the calls that reach the client. */
  class Writer {
    var calls: seq<Call>

    constructor ()
      ensures calls == []
    {
      calls := [];
    }

    /** `first` says that no header was written before; only then is the code looked at. */
    method Receive(c: Call, first: bool) returns (panicked: bool)
      modifies this
      ensures panicked == (c.Header? && first && !ValidCode(c.code))
      ensures calls == if panicked then old(calls) else old(calls) + [c]
    {
      panicked := c.Header? && first && !ValidCode(c.code);
      if !panicked {
        calls := calls + [c];
      }
    }
  }

  class Recorder {
    const inner: Writer
    var status: int
    var wroteHeader: bool

    ghost function Abs(): State
      reads this, inner
    {
      State(status, wroteHeader, inner.calls)
    }

    constructor (inner: Writer)
      ensures this.inner == inner && status == 200 && !wroteHeader
    {
      this.inner := inner;
      status := 200;
      wroteHeader := false;
    }

    method WriteHeader(code: int) returns (panicked: bool)
      modifies this, inner
      ensures Abs() == Step(old(Abs()), Header(code)) && panicked == Panicking(old(Abs()), Header(code))
    {
      if wroteHeader {
        return false;
      }
      status := code;
      wroteHeader := true;
      panicked := inner.Receive(Header(code), true);
    }

    method Write(n: nat)
      modifies this, inner
      ensures Abs() == Step(old(Abs()), Body(n))
    {
      wroteHeader := true;
      var panicked := inner.Receive(Body(n), false);
    }

    method Forward(c: Call) returns (panicked: bool)
      modifies this, inner
      ensures Abs() == Step(old(Abs()), c) && panicked == Panicking(old(Abs()), c)
    {
      match c
      case Header(code) => panicked := WriteHeader(code);
      case Body(n) => Write(n); panicked := false;
    }
  }

  /** recoverMiddleware inside loggingMiddleware; `status` is what the access log shows. */
  method Serve(w: Writer, calls: seq<Call>, ending: Ending, n: nat) returns (status: int)
    requires w.calls == []
    modifies w
    ensures status == Served(FRESH, calls, ending, n).status
    ensures w.calls == Served(FRESH, calls, ending, n).forwarded
  {
    var rec := new Recorder(w);
    var panicked := false;
    var i := 0;
    while i < |calls| && !panicked
      invariant i <= |calls| && rec.inner == w
      invariant !panicked ==> Served(rec.Abs(), calls[i..], ending, n) == Served(FRESH, calls, ending, n)
      invariant panicked ==> Recovery(rec.Abs(), n) == Served(FRESH, calls, ending, n)
      decreases |calls| - i, !panicked
    {
      assert calls[i..][1..] == calls[i + 1..];
      panicked := rec.Forward(calls[i]);
      i := i + 1;
    }
    if panicked || ending == Panics {
      var again := rec.WriteHeader(500);
      rec.Write(n);
    }
    status := rec.status;
  }

  // ----- Whole responses ------------------------------------------------

  /** The call itself when it is a body, else nothing. */
  function IfBody(c: Call): seq<Call> { if c.Body? then [c] else [] }

  function Bodies(calls: seq<Call>): seq<Call> {
    if calls == [] then [] else IfBody(calls[0]) + Bodies(calls[1..])
  }

  /** The recovery adds its body; its header comes too late. */
  function LastBody(ending: Ending, n: nat): seq<Call> { if ending == Panics then [Body(n)] else [] }

  lemma StepAfterHeader(s: State, c: Call)
    requires s.wroteHeader
    ensures Step(s, c) == State(s.status, true, s.forwarded + IfBody(c)) && !Panicking(s, c)
  {
    if c.Header? { assert s.forwarded + [] == s.forwarded; }
  }

  lemma Reassociate<T>(a: seq<T>, b: seq<T>, c: seq<T>, d: seq<T>)
    ensures (a + b) + c + d == a + (b + c) + d
  {}

  lemma {:induction false} AfterHeader(s: State, calls: seq<Call>, ending: Ending, n: nat)
    requires s.wroteHeader
    ensures Served(s, calls, ending, n) == State(s.status, true, s.forwarded + Bodies(calls) + LastBody(ending, n))
    decreases |calls|
  {
    if calls == [] {
      assert s.forwarded + [] + LastBody(ending, n) == s.forwarded + LastBody(ending, n);
      if ending == Returns { assert s.forwarded + [] == s.forwarded; }
    } else {
      StepAfterHeader(s, calls[0]);
      AfterHeader(State(s.status, true, s.forwarded + IfBody(calls[0])), calls[1..], ending, n);
      Reassociate(s.forwarded, IfBody(calls[0]), Bodies(calls[1..]), LastBody(ending, n));
    }
  }

  /** Only a header that is the very first call goes through, and only with a valid code; every body does, in order. */
  lemma ForwardedCalls(calls: seq<Call>, ending: Ending, n: nat)
    requires calls != []
    ensures Served(FRESH, calls, ending, n)
         == if calls[0].Header? && !ValidCode(calls[0].code) then State(calls[0].code, true, [Body(n)])
            else State(if calls[0].Header? then calls[0].code else 200, true,
                       [calls[0]] + Bodies(calls[1..]) + LastBody(ending, n))
  {
    if !Panicking(FRESH, calls[0]) {
      AfterHeader(Step(FRESH, calls[0]), calls[1..], ending, n);
      assert [] + [calls[0]] == [calls[0]];
    } else {
      assert [] + [] + [Body(n)] == [Body(n)];
    }
  }

  /** The status of these calls on the writer itself: the first committing call, 200 when there is none. */
  function ClientStatus(calls: seq<Call>, ending: Ending): int {
    if calls == [] then (if ending == Panics then 500 else 200)
    else if calls[0].Body? then 200
    else if !ValidCode(calls[0].code) then 500
    else if !Informational(calls[0].code) then calls[0].code
    else ClientStatus(calls[1..], ending)
  }

  lemma {:induction false} BodiesAreBodies(calls: seq<Call>)
    ensures forall c <- Bodies(calls) :: c.Body?
  {
    if calls != [] { BodiesAreBodies(calls[1..]); }
  }

  /** The logged status, the client's, and the one the client would get without the recorder. */
  predicate AllAgree(calls: seq<Call>, ending: Ending, n: nat) {
    var out := Served(FRESH, calls, ending, n);
    ClientStatus(out.forwarded, Returns) == ClientStatus(calls, ending) == out.status
  }

  /**
   * The recorder leaves the client's status alone, and records it, if and only
   * if the handler does not begin with a header that is informational or has an
   * invalid code: such a header is taken for the final one, and a later one,
   * that of the panic recovery included, is dropped.
   */
  lemma RecordedStatusIsTheClients(calls: seq<Call>, ending: Ending, n: nat)
    ensures AllAgree(calls, ending, n)
       <==> calls == [] || calls[0].Body? || (ValidCode(calls[0].code) && !Informational(calls[0].code))
  {
    if calls == [] {
      assert [] + [Header(500)] + [Body(n)] == [Header(500), Body(n)];
    } else {
      ForwardedCalls(calls, ending, n);
      var out := Served(FRESH, calls, ending, n);
      if calls[0].Body? || ValidCode(calls[0].code) {
        var rest := Bodies(calls[1..]) + LastBody(ending, n);
        assert out.forwarded == [calls[0]] + rest;
        assert out.forwarded[1..] == rest;
        BodiesAreBodies(calls[1..]);
        assert rest == [] || rest[0].Body?;
        assert ClientStatus(rest, Returns) == 200;
      }
    }
  }

  /** An early hint hides the final status from the log and the client. */
  lemma EarlyHintWins()
    ensures var out := Served(FRESH, [Header(103), Header(404)], Returns, 0);
            out.status == 103 && ClientStatus(out.forwarded, Returns) == 200
            && ClientStatus([Header(103), Header(404)], Returns) == 404
  {
    var calls := [Header(103), Header(404)];
    ForwardedCalls(calls, Returns, 0);
    assert calls[1..] == [Header(404)];
    assert Bodies(calls[1..]) == [];
    assert [Header(103)] + [] + [] == [Header(103)];
  }

  /** An invalid code is logged although the client gets 200, and would get 500 without the recorder. */
  lemma InvalidCodeIsLogged(n: nat)
    ensures var out := Served(FRESH, [Header(42)], Returns, n);
            out.status == 42 && ClientStatus(out.forwarded, Returns) == 200
            && ClientStatus([Header(42)], Returns) == 500
  {
    ForwardedCalls([Header(42)], Returns, n);
  }

  /** The recovered 500 of a panic is logged iff nothing was written before; else the earlier status stands. */
  lemma PanicIsLogged(calls: seq<Call>, n: nat)
    ensures Served(FRESH, calls, Panics, n).status
         == if calls == [] then 500 else Served(FRESH, calls, Returns, n).status
  {
    if calls != [] {
      ForwardedCalls(calls, Panics, n);
      ForwardedCalls(calls, Returns, n);
    }
  }

  /** Any first header from 200 to 999 is logged, forwarded, and is what the client gets. */
  lemma FinalHeaderCounts(code: int, rest: seq<Call>, ending: Ending, n: nat)
    requires 200 <= code <= 999
    ensures var out := Served(FRESH, [Header(code)] + rest, ending, n);
            out.status == code && out.forwarded != [] && out.forwarded[0] == Header(code)
            && ClientStatus(out.forwarded, Returns) == code
  {
    hide Served;
    ForwardedCalls([Header(code)] + rest, ending, n);
  }

  /** Any first header from 100 to 199 is logged and forwarded too, before its time. */
  lemma EarlyHeaderCounts(code: int, rest: seq<Call>, ending: Ending, n: nat)
    requires 100 <= code <= 199
    ensures var out := Served(FRESH, [Header(code)] + rest, ending, n);
            out.status == code && out.forwarded != [] && out.forwarded[0] == Header(code)
  {
    hide Served;
    ForwardedCalls([Header(code)] + rest, ending, n);
  }

  /** Any other code is logged, and the client gets nothing but the body of the recovery. */
  lemma InvalidHeaderIsLost(code: int, rest: seq<Call>, ending: Ending, n: nat)
    requires code < 100 || 999 < code
    ensures var out := Served(FRESH, [Header(code)] + rest, ending, n);
            out.status == code && out.forwarded == [Body(n)]
  {
    hide Served;
    ForwardedCalls([Header(code)] + rest, ending, n);
  }
}
