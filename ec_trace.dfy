/** Sequences of port accesses, as the host's I/O trap handler issues them
    through ec_global_io_read / ec_global_io_write (ecsim.c:553-559), and the
    properties that hold of every state such a sequence reaches. */
module EcTrace {

  import opened Bytes
  import opened EcSpec

  /** One port access, with what the bypass transport would do with it. */
  datatype Access =
    | ReadPort(port: byte, outcome: Transport)
    | WritePort(port: byte, value: byte, outcome: Transport)

  /** The state after a sequence of accesses, and the bytes its reads return. */
  function Run(s: EcState, accesses: seq<Access>): (r: (EcState, seq<byte>))
    requires Valid(s)
    ensures Valid(r.0)
    ensures !s.lleConnected ==> !r.0.lleConnected
    ensures |r.1| <= |accesses|
    decreases |accesses|
  {
    if accesses == [] then (s, [])
    else
      match accesses[0]
      case ReadPort(port, outcome) =>
        var (s1, v) := IoRead(s, port, outcome);
        var (s2, out) := Run(s1, accesses[1..]);
        (s2, [v] + out)
      case WritePort(port, value, outcome) =>
        Run(IoWrite(s, port, value, outcome), accesses[1..])
  }

  /** Running a + b is running a, then b from where a left off. */
  lemma {:induction false} RunAppend(s: EcState, a: seq<Access>, b: seq<Access>)
    requires Valid(s)
    ensures var (s1, out1) := Run(s, a);
            var (s2, out2) := Run(s1, b);
            Run(s, a + b) == (s2, out1 + out2)
    decreases |a|
  {
    if a == [] {
      assert a + b == b;
      assert [] + Run(s, b).1 == Run(s, b).1;
    } else {
      assert (a + b)[0] == a[0];
      assert (a + b)[1..] == a[1..] + b;
      match a[0]
      case ReadPort(port, outcome) =>
        var (s1, v) := IoRead(s, port, outcome);
        RunAppend(s1, a[1..], b);
        var (t1, rest1) := Run(s1, a[1..]);
        var out2 := Run(t1, b).1;
        assert [v] + (rest1 + out2) == ([v] + rest1) + out2;
      case WritePort(port, value, outcome) =>
        RunAppend(IoWrite(s, port, value, outcome), a[1..], b);
    }
  }

  /** Every state reachable from ec_new satisfies the invariant: in
      particular cmd is 0 or 1, the address counter stays in [0,3], the
      JEDEC cursor never passes 4, and a string cursor never passes its
      terminator while the string is read out. */
  lemma Reachable(connectOk: bool, initOutcome: Transport, accesses: seq<Access>)
    ensures var s := Run(Initial(connectOk, initOutcome), accesses).0;
            && Valid(s)
            && (s.cmd == 0 || s.cmd == 1)
            && s.spiAddrI <= 3
            && s.spiJedecI <= 4
            && (s.state == GetProject ==> s.projectI <= ProjectLen)
            && (s.state == GetVersion ==> s.versionI <= VersionLen)
  {
  }

  /** The same request (port, and value for a write) whatever the transport
      would have done with it. */
  predicate SameRequest(x: Access, y: Access)
  {
    match (x, y)
    case (ReadPort(p, _), ReadPort(q, _)) => p == q
    case (WritePort(p, v, _), WritePort(q, w, _)) => p == q && v == w
    case _ => false
  }

  /** Once the socket is closed it stays closed, and the transport is never
      consulted again: two runs of the same requests agree whatever the
      transport outcomes are. */
  lemma {:induction false} ClosedBypassIgnoresTransport(s: EcState, a: seq<Access>, b: seq<Access>)
    requires Valid(s) && !s.lleConnected
    requires |a| == |b| && forall i :: 0 <= i < |a| ==> SameRequest(a[i], b[i])
    ensures Run(s, a) == Run(s, b)
    ensures !Run(s, a).0.lleConnected
    decreases |a|
  {
    if a != [] {
      assert SameRequest(a[0], b[0]);
      match a[0]
      case ReadPort(port, outcome) =>
        var s1 := IoRead(s, port, outcome).0;
        ClosedBypassIgnoresTransport(s1, a[1..], b[1..]);
      case WritePort(port, value, outcome) =>
        ClosedBypassIgnoresTransport(IoWrite(s, port, value, outcome), a[1..], b[1..]);
    }
  }

  /** An access the peer answers leaves the EC untouched; the first access
      whose transport fails closes the socket and is handled, like every
      later one, by the emulation. */
  lemma {:induction false} BypassFallback(s: EcState, first: Access, rest: seq<Access>)
    requires Valid(s) && s.lleConnected
    requires first.outcome.Replied?
    requires rest != [] && !rest[0].outcome.Replied?
    ensures var (s1, out) := Run(s, [first] + rest);
            var (e1, eout) := Run(s.(lleConnected := false), rest);
            && s1 == e1
            && out == (if first.ReadPort? then [first.outcome.reply] else []) + eout
            && !s1.lleConnected
  {
    assert ([first] + rest)[0] == first;
    assert ([first] + rest)[1..] == rest;
    match first {
      case ReadPort(port, outcome) =>
        assert IoRead(s, port, outcome) == (s, outcome.reply);
      case WritePort(port, value, outcome) =>
        assert IoWrite(s, port, value, outcome) == s;
    }
    var closed := s.(lleConnected := false);
    match rest[0] {
      case ReadPort(port, outcome) =>
        assert IoRead(s, port, outcome) == IoRead(closed, port, outcome);
      case WritePort(port, value, outcome) =>
        assert IoWrite(s, port, value, outcome) == IoWrite(closed, port, value, outcome);
    }
  }
}
