/**
 * The stateful half of the Lua bridge dispatcher: one optional connection,
 * torn down before every reconnect, and the delivery policy of
 * `_send_json_line` (lazy connect, one send, one reconnect and one resend).
 * Calls are taken one at a time, which is what the dispatcher's lock ensures.
 * The network is not modelled: the outcome of every connect and send attempt
 * is an answer supplied by the caller (see `Network`).
 */
module LuaSocket {
  import opened Wrappers
  import opened JsonNumber
  import opened Json
  import opened LuaMessage

  const DefaultHost: string := "0.0.0.0"
  const DefaultPort: int := 8765

  /** A stream socket; the model needs only its identity. */
  class Socket {
    constructor () {}
  }

  /** One network operation the dispatcher performed, and whether it succeeded. */
  datatype Attempt = ConnectAttempt(ok: bool) | SendAttempt(ok: bool)

  /**
   * The answers the network gives to the successive connect attempts and send
   * attempts of one call (0 is the first of each kind); an attempt with no
   * answer listed fails.
   */
  datatype Network = Network(connects: seq<bool>, sends: seq<bool>) {
    function ConnectSucceeds(k: nat): bool {
      k < |connects| && connects[k]
    }

    function SendSucceeds(k: nat): bool {
      k < |sends| && sends[k]
    }
  }

  /** The outcomes of the connect attempts in a trace, in order. */
  function Connects(t: seq<Attempt>): (r: seq<bool>)
    ensures |r| <= |t|
  {
    if t == [] then []
    else (if t[0].ConnectAttempt? then [t[0].ok] else []) + Connects(t[1..])
  }

  /** The outcomes of the send attempts in a trace, in order. */
  function Sends(t: seq<Attempt>): (r: seq<bool>)
    ensures |r| <= |t|
  {
    if t == [] then []
    else (if t[0].SendAttempt? then [t[0].ok] else []) + Sends(t[1..])
  }

  /** The trace's send attempts got the network's answers to sends 0, 1, ... */
  predicate SendsFollow(t: seq<Attempt>, net: Network) {
    forall k :: 0 <= k < |Sends(t)| ==> Sends(t)[k] == net.SendSucceeds(k)
  }

  /** The trace's connect attempts got the network's answers to connects c, c + 1, ... */
  predicate ConnectsFollow(t: seq<Attempt>, net: Network, c: nat) {
    forall k :: 0 <= k < |Connects(t)| ==> Connects(t)[k] == net.ConnectSucceeds(c + k)
  }

  /** The trace got each attempt's outcome from the network's answers. */
  predicate Follows(t: seq<Attempt>, net: Network) {
    SendsFollow(t, net) && ConnectsFollow(t, net, 0)
  }

  /**
   * Sending on a held socket: a send that succeeds ends the call; a send that
   * fails is followed by one reconnect and, if that produced a socket, by one
   * resend, whose outcome is the call's.
   */
  predicate SendPhase(t: seq<Attempt>, ok: bool) {
    || (t == [SendAttempt(true)] && ok)
    || (t == [SendAttempt(false), ConnectAttempt(false)] && !ok)
    || (|t| == 3 && t[0] == SendAttempt(false) && t[1] == ConnectAttempt(true) && t[2].SendAttempt? && ok == t[2].ok)
  }

  /**
   * The delivery policy: the attempts `t` one call may make and the outcome
   * `ok` it may report, given whether it found a socket (`held`) and whether
   * reconnecting is enabled. Without a socket it fails at once when
   * reconnecting is disabled, and otherwise connects first and fails if that
   * connect fails.
   */
  predicate Delivery(held: bool, autoReconnect: bool, t: seq<Attempt>, ok: bool) {
    if held then SendPhase(t, ok)
    else if !autoReconnect then t == [] && !ok
    else (t == [ConnectAttempt(false)] && !ok) || (|t| >= 1 && t[0] == ConnectAttempt(true) && SendPhase(t[1..], ok))
  }

  lemma SendPhaseCounts(t: seq<Attempt>, ok: bool)
    requires SendPhase(t, ok)
    ensures t[0] == SendAttempt(Sends(t)[0])
    ensures 1 <= |Sends(t)| <= 2 && |Connects(t)| <= 1
    ensures ok <==> true in Sends(t)
    ensures Sends(t)[0] ==> t == [SendAttempt(true)]
    ensures |Sends(t)| == 2 ==> t[..2] == [SendAttempt(false), ConnectAttempt(true)]
    ensures |t| == 1 ==> Sends(t) == [true] && Connects(t) == []
    ensures |t| == 2 ==> Sends(t) == [false] && Connects(t) == [false]
    ensures |t| == 3 ==> Sends(t) == [false, t[2].ok] && Connects(t) == [true]
  {
    if |t| == 3 {
      var u := t[1..];
      var w := u[1..];
      assert w[1..] == [];
      assert Sends(w) == [t[2].ok] && Connects(w) == [];
      assert Sends(u) == [t[2].ok] && Connects(u) == [true];
      assert Sends(t) == [false, t[2].ok] && Connects(t) == [true];
    } else if |t| == 2 {
      assert t[1..][1..] == [];
    } else {
      assert t[1..] == [];
    }
  }

  /** Retry bounds: one call makes at most two connect attempts and at most two send attempts. */
  lemma RetryBounds(held: bool, autoReconnect: bool, t: seq<Attempt>, ok: bool)
    requires Delivery(held, autoReconnect, t, ok)
    ensures |Connects(t)| <= 2 && |Sends(t)| <= 2
  {
    if !held && autoReconnect && t != [ConnectAttempt(false)] {
      SendPhaseCounts(t[1..], ok);
    } else if held {
      SendPhaseCounts(t, ok);
    }
  }

  /** Outcome: a call reports success exactly when one of its send attempts succeeded. */
  lemma OutcomeIsSomeSend(held: bool, autoReconnect: bool, t: seq<Attempt>, ok: bool)
    requires Delivery(held, autoReconnect, t, ok)
    ensures ok <==> true in Sends(t)
  {
    if held {
      SendPhaseCounts(t, ok);
    } else if autoReconnect && t != [ConnectAttempt(false)] {
      SendPhaseCounts(t[1..], ok);
    }
  }

  /**
   * Lazy connect: a call that finds no socket, with reconnecting enabled,
   * connects before anything else, and when that connect fails it reports
   * failure without sending.
   */
  lemma LazyConnectFirst(autoReconnect: bool, t: seq<Attempt>, ok: bool)
    requires Delivery(false, autoReconnect, t, ok) && autoReconnect
    ensures t != [] && t[0].ConnectAttempt?
    ensures !t[0].ok ==> Sends(t) == [] && !ok
  {
  }

  /** Reconnect disabled: a call that finds no socket makes no attempt at all and fails. */
  lemma NoSocketNoReconnect(t: seq<Attempt>, ok: bool)
    requires Delivery(false, false, t, ok)
    ensures t == [] && !ok
  {
  }

  /**
   * A first send that succeeds ends the call with success and no reconnect;
   * a second send happens only after the first failed and a reconnect produced
   * a socket.
   */
  lemma RetryOnlyAfterFailure(held: bool, autoReconnect: bool, t: seq<Attempt>, ok: bool)
    requires Delivery(held, autoReconnect, t, ok)
    ensures |Sends(t)| >= 1 && Sends(t)[0] ==> ok && |Sends(t)| == 1 && |Connects(t)| == (if held then 0 else 1)
    ensures |Sends(t)| == 2 ==>
      !Sends(t)[0] && |t| >= 3 && t[|t| - 3] == SendAttempt(false) && t[|t| - 2] == ConnectAttempt(true)
  {
    if held {
      SendPhaseCounts(t, ok);
    } else if autoReconnect && t != [ConnectAttempt(false)] {
      var p := t[1..];
      SendPhaseCounts(p, ok);
      assert Sends(t) == Sends(p);
      assert Connects(t) == [true] + Connects(p);
      if |Sends(p)| == 2 {
        assert |p| == 3;
      }
    }
  }

  /** Failure never latches: with reconnecting enabled every call goes to the network. */
  lemma NeverLatches(held: bool, t: seq<Attempt>, ok: bool)
    requires Delivery(held, true, t, ok)
    ensures t != []
  {
  }

  /**
   * The send phase the network's answers select: the first send answer, then
   * (after a failure) the answer to connect attempt `c`, then the second send
   * answer.
   */
  function SendRun(net: Network, c: nat): (seq<Attempt>, bool) {
    if net.SendSucceeds(0) then ([SendAttempt(true)], true)
    else if !net.ConnectSucceeds(c) then ([SendAttempt(false), ConnectAttempt(false)], false)
    else ([SendAttempt(false), ConnectAttempt(true), SendAttempt(net.SendSucceeds(1))], net.SendSucceeds(1))
  }

  /** The attempts and the outcome of one call, as the network's answers select them. */
  function Run(held: bool, autoReconnect: bool, net: Network): (seq<Attempt>, bool) {
    if held then SendRun(net, 0)
    else if !autoReconnect then ([], false)
    else if !net.ConnectSucceeds(0) then ([ConnectAttempt(false)], false)
    else ([ConnectAttempt(true)] + SendRun(net, 1).0, SendRun(net, 1).1)
  }

  /**
   * A call makes no connect attempt exactly when its first send succeeds on a
   * held socket, or when it holds none and may not reconnect.
   */
  lemma RunConnects(held: bool, autoReconnect: bool, net: Network)
    ensures (Connects(Run(held, autoReconnect, net).0) == []) ==
            ((held && net.SendSucceeds(0)) || (!held && !autoReconnect))
  {
    var t := Run(held, autoReconnect, net).0;
    if held && !net.SendSucceeds(0) {
      assert t[1..][0].ConnectAttempt?;
      assert Connects(t) == Connects(t[1..]);
    } else if !held && autoReconnect {
      assert t[0].ConnectAttempt?;
    }
  }

  lemma SendRunObeysPolicy(net: Network, c: nat)
    ensures SendPhase(SendRun(net, c).0, SendRun(net, c).1)
    ensures SendsFollow(SendRun(net, c).0, net) && ConnectsFollow(SendRun(net, c).0, net, c)
  {
    var t := SendRun(net, c).0;
    if net.SendSucceeds(0) {
      assert t[1..] == [];
      assert Sends(t) == [true] && Connects(t) == [];
    } else if !net.ConnectSucceeds(c) {
      assert t[1..] == [ConnectAttempt(false)] && t[1..][1..] == [];
      assert Sends(t) == [false] && Connects(t) == [false];
    } else {
      var u := t[1..];
      assert u == [ConnectAttempt(true), SendAttempt(net.SendSucceeds(1))];
      assert u[1..] == [SendAttempt(net.SendSucceeds(1))] && u[1..][1..] == [];
      assert Sends(u[1..]) == [net.SendSucceeds(1)] && Connects(u[1..]) == [];
      assert Sends(u) == [net.SendSucceeds(1)] && Connects(u) == [true];
      assert Sends(t) == [false, net.SendSucceeds(1)] && Connects(t) == [true];
    }
  }

  lemma ConnectThenFollows(b: bool, p: seq<Attempt>, net: Network)
    requires b == net.ConnectSucceeds(0)
    requires SendsFollow(p, net) && ConnectsFollow(p, net, 1)
    ensures Follows([ConnectAttempt(b)] + p, net)
  {
    PrependConnect(b, p);
    var cs := Connects([ConnectAttempt(b)] + p);
    forall k | 0 <= k < |cs|
      ensures cs[k] == net.ConnectSucceeds(k)
    {
      if k > 0 {
        assert cs[k] == Connects(p)[k - 1];
      }
    }
  }

  /** Every run the network can select obeys the delivery policy and follows the answers. */
  lemma RunObeysPolicy(held: bool, autoReconnect: bool, net: Network)
    ensures Delivery(held, autoReconnect, Run(held, autoReconnect, net).0, Run(held, autoReconnect, net).1)
    ensures Follows(Run(held, autoReconnect, net).0, net)
  {
    var t := Run(held, autoReconnect, net).0;
    if held {
      SendRunObeysPolicy(net, 0);
    } else if autoReconnect {
      if net.ConnectSucceeds(0) {
        var p := SendRun(net, 1).0;
        SendRunObeysPolicy(net, 1);
        ConnectThenFollows(true, p, net);
        assert t[1..] == p;
      } else {
        ConnectThenFollows(false, [], net);
        assert t == [ConnectAttempt(false)] + [];
      }
    }
  }

  /** A send phase that got the network's answers is the one they select. */
  lemma SendPhaseIsSendRun(net: Network, c: nat, t: seq<Attempt>, ok: bool)
    requires SendPhase(t, ok) && SendsFollow(t, net) && ConnectsFollow(t, net, c)
    ensures (t, ok) == SendRun(net, c)
  {
    SendPhaseCounts(t, ok);
    assert Sends(t)[0] == net.SendSucceeds(0);
    if |t| == 2 {
      assert Connects(t)[0] == net.ConnectSucceeds(c + 0);
    } else if |t| == 3 {
      assert Connects(t)[0] == net.ConnectSucceeds(c + 0);
      assert Sends(t)[1] == net.SendSucceeds(1);
      assert t == [SendAttempt(false), ConnectAttempt(true), SendAttempt(net.SendSucceeds(1))];
    }
  }

  /** A call that got the network's answers made the attempts they select and reports their outcome. */
  lemma PolicyIsRun(held: bool, autoReconnect: bool, net: Network, t: seq<Attempt>, ok: bool)
    requires Delivery(held, autoReconnect, t, ok) && Follows(t, net)
    ensures (t, ok) == Run(held, autoReconnect, net)
  {
    if held {
      SendPhaseIsSendRun(net, 0, t, ok);
    } else if autoReconnect {
      assert Connects(t)[0] == net.ConnectSucceeds(0);
      if t[0].ok {
        var p := t[1..];
        assert t == [ConnectAttempt(true)] + p;
        FollowsAfterConnect(p, net);
        SendPhaseIsSendRun(net, 1, p, ok);
      }
    }
  }

  /** After a first connect that got answer 0, the rest of the trace got the answers from connect 1 on. */
  lemma FollowsAfterConnect(p: seq<Attempt>, net: Network)
    requires Follows([ConnectAttempt(true)] + p, net)
    ensures SendsFollow(p, net) && ConnectsFollow(p, net, 1)
  {
    var t := [ConnectAttempt(true)] + p;
    PrependConnect(true, p);
    forall k | 0 <= k < |Connects(p)|
      ensures Connects(p)[k] == net.ConnectSucceeds(1 + k)
    {
      assert Connects(t)[k + 1] == Connects(p)[k];
    }
  }

  /** The network's answers fix the attempts and the outcome of a call. */
  lemma DeliveryIsDetermined(held: bool, autoReconnect: bool, net: Network,
                             t1: seq<Attempt>, ok1: bool, t2: seq<Attempt>, ok2: bool)
    requires Delivery(held, autoReconnect, t1, ok1) && Follows(t1, net)
    requires Delivery(held, autoReconnect, t2, ok2) && Follows(t2, net)
    ensures t1 == t2 && ok1 == ok2
  {
    PolicyIsRun(held, autoReconnect, net, t1, ok1);
    PolicyIsRun(held, autoReconnect, net, t2, ok2);
  }

  lemma {:induction false} CountsAdd(a: seq<Attempt>, b: seq<Attempt>)
    ensures Connects(a + b) == Connects(a) + Connects(b)
    ensures Sends(a + b) == Sends(a) + Sends(b)
  {
    if a != [] {
      assert (a + b)[0] == a[0] && (a + b)[1..] == a[1..] + b;
      CountsAdd(a[1..], b);
    } else {
      assert a + b == b;
    }
  }

  /** Over a history, one more call adds at most two connect attempts and at most two send attempts. */
  lemma CountersOfCall(before: seq<Attempt>, held: bool, autoReconnect: bool, t: seq<Attempt>, ok: bool)
    requires Delivery(held, autoReconnect, t, ok)
    ensures |Connects(before + t)| <= |Connects(before)| + 2
    ensures |Sends(before + t)| <= |Sends(before)| + 2
    ensures ok ==> |Sends(before + t)| > |Sends(before)|
  {
    CountsAdd(before, t);
    RetryBounds(held, autoReconnect, t, ok);
    OutcomeIsSomeSend(held, autoReconnect, t, ok);
  }

  lemma PrependConnect(b: bool, t: seq<Attempt>)
    ensures Sends([ConnectAttempt(b)] + t) == Sends(t)
    ensures Connects([ConnectAttempt(b)] + t) == [b] + Connects(t)
  {
    assert ([ConnectAttempt(b)] + t)[1..] == t;
  }

  /** Sends the dispatcher's lines to the Lua bridge over one long-lived connection. */
  class LuaSocketDispatcher {
    const host: string
    const port: int
    const autoReconnect: bool

    /** The connection, or null when there is none. */
    var sock: Socket?

    /** Every connect and send attempt so far, in order; the counters below are read from it. */
    ghost var attempts: seq<Attempt>
    /** The sockets whose connect succeeded. */
    ghost var connected: set<Socket>
    /** The sockets whose `close` has been called. */
    ghost var released: set<Socket>
    /** The messages whose `sendall` completed, in order. */
    ghost var accepted: seq<Value>

    /**
     * The object invariant: every connected socket except the one held has
     * been closed, so no connection leaks across reconnects.
     */
    ghost predicate Valid()
      reads this
    {
      && released <= connected
      && connected - released == (if sock == null then {} else {sock})
      && AllWellFormed(accepted)
    }

    ghost function ConnectCount(): nat
      reads this
    {
      |Connects(attempts)|
    }

    ghost function SendCount(): nat
      reads this
    {
      |Sends(attempts)|
    }

    /** Connected sockets not yet closed. */
    ghost function OpenSockets(): (n: nat)
      reads this
      requires Valid()
      ensures n <= 1 && (n == 1 <==> sock != null)
    {
      |connected - released|
    }

    /**
     * The bytes the local socket has accepted in full: one frame per accepted
     * message. A completed `sendall` says nothing about the listener, so these
     * are the most the listener can have read.
     */
    ghost function Wire(): seq<byte>
      reads this
      requires Valid()
    {
      Stream(accepted)
    }

    /** Construction records the settings and makes one connect attempt. */
    constructor (host: string, port: int, autoReconnect: bool, connectSucceeds: bool)
      ensures Valid()
      ensures this.host == host && this.port == port && this.autoReconnect == autoReconnect
      ensures attempts == [ConnectAttempt(connectSucceeds)]
      ensures (sock != null) == connectSucceeds
      ensures released == {} && accepted == []
    {
      this.host := host;
      this.port := port;
      this.autoReconnect := autoReconnect;
      sock := null;
      attempts := [];
      connected := {};
      released := {};
      accepted := [];
      new;
      Connect(connectSucceeds);
    }

    /**
     * Construction with the default settings: all interfaces, port 8765, and
     * reconnection on.
     */
    constructor Default(connectSucceeds: bool)
      ensures Valid()
      ensures host == DefaultHost && port == DefaultPort && autoReconnect
      ensures attempts == [ConnectAttempt(connectSucceeds)]
      ensures (sock != null) == connectSucceeds
      ensures released == {} && accepted == []
    {
      host := DefaultHost;
      port := DefaultPort;
      autoReconnect := true;
      sock := null;
      attempts := [];
      connected := {};
      released := {};
      accepted := [];
      new;
      Connect(connectSucceeds);
    }

    /**
     * `_close`: closes the held socket, if any, and forgets it. An error from
     * closing is swallowed and the socket is forgotten all the same; with no
     * socket it does nothing.
     */
    method ReleaseSocket()
      requires Valid()
      modifies this
      ensures Valid() && sock == null
      ensures released == old(released) + (if old(sock) == null then {} else {old(sock)})
      ensures attempts == old(attempts) && connected == old(connected) && accepted == old(accepted)
      ensures old(sock) == null ==> unchanged(this)
    {
      if sock != null {
        released := released + {sock};
        sock := null;
      }
    }

    /**
     * `_connect`: releases the held socket first, then makes one connect
     * attempt with a fresh socket, which is held afterwards exactly when the
     * attempt succeeded. A socket whose connect failed is not closed.
     */
    method Connect(succeeds: bool)
      requires Valid()
      modifies this
      ensures Valid()
      ensures attempts == old(attempts) + [ConnectAttempt(succeeds)]
      ensures (sock != null) == succeeds
      ensures sock != null ==> fresh(sock)
      ensures released == old(released) + (if old(sock) == null then {} else {old(sock)})
      ensures connected == old(connected) + (if sock == null then {} else {sock})
      ensures accepted == old(accepted)
    {
      ReleaseSocket();
      var s := new Socket();
      if succeeds {
        sock := s;
        connected := connected + {s};
      }
      attempts := attempts + [ConnectAttempt(succeeds)];
    }

    /**
     * `_send_json_line`: sends one message under the delivery policy and
     * reports whether a `sendall` completed. The attempts it makes are exactly
     * those `Delivery` allows, with the outcomes `net` gives; a message whose
     * send completed was accepted by the local socket once, as one frame.
     */
    method SendJsonLine(message: Value, net: Network) returns (ok: bool)
      requires Valid() && WellFormed(message)
      modifies this
      ensures Valid()
      ensures old(attempts) <= attempts
      ensures Delivery(old(sock) != null, autoReconnect, attempts[|old(attempts)|..], ok)
      ensures Follows(attempts[|old(attempts)|..], net)
      ensures attempts == old(attempts) + Run(old(sock) != null, autoReconnect, net).0
      ensures ok == Run(old(sock) != null, autoReconnect, net).1
      ensures accepted == old(accepted) + (if ok then [message] else [])
      ensures Wire() == old(Wire()) + (if ok then Frame(message) else [])
      ensures attempts == old(attempts) ==> sock == old(sock)
      ensures attempts != old(attempts) ==> (sock != null <==> attempts[|attempts| - 1].SendAttempt?)
      ensures Connects(attempts[|old(attempts)|..]) == [] ==>
        sock == old(sock) && connected == old(connected) && released == old(released)
      ensures Connects(attempts[|old(attempts)|..]) != [] ==>
        (old(sock) != null ==> old(sock) in released) && (sock != null ==> fresh(sock))
      ensures old(connected) <= connected && old(released) <= released
      ensures forall s :: s in connected - old(connected) ==> fresh(s)
    {
      ghost var before := attempts;
      ghost var held := sock != null;
      if sock == null {
        if !autoReconnect {
          ok := false;
        } else {
          ok := ConnectAndSend(message, net);
        }
      } else {
        ok := SendHeld(message, net, 0);
        assert !net.SendSucceeds(0) ==> old(sock) in released && (sock != null ==> fresh(sock));
      }
      NewAttempts(held, autoReconnect, net, before, attempts);
    }

    /**
     * The lazy connect of `_send_json_line`: with no socket held and
     * reconnecting enabled, one connect attempt, and if it produced a socket,
     * the send phase on it.
     */
    method ConnectAndSend(message: Value, net: Network) returns (ok: bool)
      requires Valid() && WellFormed(message) && sock == null && autoReconnect
      modifies this
      ensures Valid()
      ensures attempts == old(attempts) + Run(false, true, net).0 && ok == Run(false, true, net).1
      ensures accepted == old(accepted) + (if ok then [message] else [])
      ensures Wire() == old(Wire()) + (if ok then Frame(message) else [])
      ensures sock != null <==> attempts[|attempts| - 1].SendAttempt?
      ensures sock != null ==> fresh(sock)
      ensures old(connected) <= connected && old(released) <= released
      ensures forall s :: s in connected - old(connected) ==> fresh(s)
    {
      Connect(net.ConnectSucceeds(0));
      if sock == null {
        ok := false;
      } else {
        ok := SendHeld(message, net, 1);
      }
    }

    /**
     * The part of `_send_json_line` that runs once a socket is held: one
     * send, and after a failed send one reconnect and, if that produced a
     * socket, one resend. `c` is the number of connect attempts the call has
     * already made.
     */
    method SendHeld(message: Value, net: Network, c: nat) returns (ok: bool)
      requires Valid() && WellFormed(message) && sock != null
      modifies this
      ensures Valid()
      ensures attempts == old(attempts) + SendRun(net, c).0 && ok == SendRun(net, c).1
      ensures accepted == old(accepted) + (if ok then [message] else [])
      ensures Wire() == old(Wire()) + (if ok then Frame(message) else [])
      ensures sock != null <==> attempts[|attempts| - 1].SendAttempt?
      ensures net.SendSucceeds(0) ==>
        sock == old(sock) && connected == old(connected) && released == old(released)
      ensures !net.SendSucceeds(0) ==>
        released == old(released) + {old(sock)} && (sock != null ==> fresh(sock)) &&
        connected == old(connected) + (if sock == null then {} else {sock})
    {
      ok := net.SendSucceeds(0);
      attempts := attempts + [SendAttempt(ok)];
      if !ok {
        Connect(net.ConnectSucceeds(c));
        if sock != null {
          ok := net.SendSucceeds(1);
          attempts := attempts + [SendAttempt(ok)];
        }
      }
      if ok {
        accepted := accepted + [message];
        WireGrows(old(accepted), message);
      }
    }

    /**
     * `dispatch`: builds the envelope for `intent`, `args` and the clock
     * reading `timestamp` and hands it to `SendJsonLine`. Nothing is reported
     * to the caller; `delivered` is the outcome the dispatcher logs.
     */
    method Dispatch(intent: string, args: Option<seq<Arg>>, timestamp: string, net: Network)
      returns (ghost delivered: bool)
      requires Valid() && FloatToken(timestamp)
      modifies this
      ensures Valid()
      ensures old(attempts) <= attempts
      ensures Delivery(old(sock) != null, autoReconnect, attempts[|old(attempts)|..], delivered)
      ensures Follows(attempts[|old(attempts)|..], net)
      ensures attempts == old(attempts) + Run(old(sock) != null, autoReconnect, net).0
      ensures delivered == Run(old(sock) != null, autoReconnect, net).1
      ensures accepted == old(accepted) + (if delivered then [ToJson(MakeEnvelope(intent, args, timestamp))] else [])
      ensures attempts == old(attempts) ==> sock == old(sock)
      ensures attempts != old(attempts) ==> (sock != null <==> attempts[|attempts| - 1].SendAttempt?)
      ensures Connects(attempts[|old(attempts)|..]) == [] ==>
        sock == old(sock) && connected == old(connected) && released == old(released)
      ensures Connects(attempts[|old(attempts)|..]) != [] ==>
        (old(sock) != null ==> old(sock) in released) && (sock != null ==> fresh(sock))
      ensures old(connected) <= connected && old(released) <= released
      ensures forall s :: s in connected - old(connected) ==> fresh(s)
      ensures ConnectCount() <= old(ConnectCount()) + 2 && SendCount() <= old(SendCount()) + 2
    {
      var payload := ToJson(MakeEnvelope(intent, args, timestamp));
      EnvelopeWellFormed(MakeEnvelope(intent, args, timestamp));
      ghost var before := attempts;
      var ok := SendJsonLine(payload, net);
      delivered := ok;
      CountersOfCall(before, old(sock) != null, autoReconnect, attempts[|before|..], ok);
      assert attempts == before + attempts[|before|..];
    }

    /** `close`: the public teardown, the same as `_close`. */
    method Close()
      requires Valid()
      modifies this
      ensures Valid() && sock == null
      ensures released == old(released) + (if old(sock) == null then {} else {old(sock)})
      ensures attempts == old(attempts) && connected == old(connected) && accepted == old(accepted)
      ensures old(sock) == null ==> unchanged(this)
    {
      ReleaseSocket();
    }
  }

  /** What a call's new attempts are, once they are known to be the run the answers choose. */
  lemma NewAttempts(held: bool, autoReconnect: bool, net: Network, before: seq<Attempt>, after: seq<Attempt>)
    requires after == before + Run(held, autoReconnect, net).0
    ensures before <= after && after[|before|..] == Run(held, autoReconnect, net).0
    ensures Delivery(held, autoReconnect, after[|before|..], Run(held, autoReconnect, net).1)
    ensures Follows(after[|before|..], net)
    ensures (Connects(after[|before|..]) == []) ==
            ((held && net.SendSucceeds(0)) || (!held && !autoReconnect))
  {
    assert after[|before|..] == Run(held, autoReconnect, net).0;
    RunObeysPolicy(held, autoReconnect, net);
    RunConnects(held, autoReconnect, net);
  }

  lemma {:induction false} WireGrows(msgs: seq<Value>, m: Value)
    requires AllWellFormed(msgs) && WellFormed(m)
    ensures AllWellFormed(msgs + [m])
    ensures Stream(msgs + [m]) == Stream(msgs) + Frame(m)
  {
    WellFormedAppend(msgs, m);
    if msgs == [] {
      StreamCons(m, []);
      assert [m] + [] == [m];
    } else {
      var rest := msgs[1..];
      WellFormedAppend(rest, m);
      WireGrows(rest, m);
      assert msgs == [msgs[0]] + rest && msgs + [m] == [msgs[0]] + (rest + [m]);
      StreamCons(msgs[0], rest);
      StreamCons(msgs[0], rest + [m]);
      AppendAssoc(Frame(msgs[0]), Stream(rest), Frame(m));
    }
  }

  lemma StreamCons(x: Value, rest: seq<Value>)
    requires WellFormed(x) && AllWellFormed(rest)
    ensures AllWellFormed([x] + rest)
    ensures Stream([x] + rest) == Frame(x) + Stream(rest)
  {
    assert ([x] + rest)[0] == x && ([x] + rest)[1..] == rest;
    assert forall i :: 1 <= i < |[x] + rest| ==> ([x] + rest)[i] == rest[i - 1];
  }

  lemma WellFormedAppend(msgs: seq<Value>, m: Value)
    requires AllWellFormed(msgs) && WellFormed(m)
    ensures AllWellFormed(msgs + [m])
    ensures msgs != [] ==> AllWellFormed(msgs[1..])
  {
    assert forall i :: 0 <= i < |msgs| ==> (msgs + [m])[i] == msgs[i];
  }

  /** A clock reading as the encoder writes it. */
  const SampleStamp: string := "1725140000.12"

  lemma SampleStampIsFloat()
    ensures FloatToken(SampleStamp)
  {
    assert SampleStamp[10] == '.';
    assert forall i :: 0 <= i < |SampleStamp| ==> NumberChar(SampleStamp[i]);
  }

  /**
   * No listener: construction and two dispatches all fail to connect; each
   * dispatch tries to connect again and reports failure.
   */
  method NoListener() returns (d: LuaSocketDispatcher)
    ensures d.Valid() && d.sock == null && d.accepted == []
    ensures d.attempts == [ConnectAttempt(false), ConnectAttempt(false), ConnectAttempt(false)]
  {
    d := new LuaSocketDispatcher("127.0.0.1", 9999, true, false);
    var down := Network([], []);
    var first := d.Dispatch("launch", Some([Arg("speed", Text("boost"))]), "1725140000.12", down);
    var second := d.Dispatch("launch", None, "1725140001.5", down);
  }

  /** The command of the examples: `launch` with `speed` set to `boost`. */
  const LaunchArgs: seq<Arg> := [Arg("speed", Text("boost"))]

  function LaunchMessage(): Value {
    ToJson(MakeEnvelope("launch", Some(LaunchArgs), SampleStamp))
  }

  /**
   * The listener drops the connection after accepting it: the next dispatch
   * sees its send fail, reconnects once and resends, and the message is
   * accepted once.
   */
  method ListenerDropsConnection() returns (d: LuaSocketDispatcher)
    ensures d.Valid() && d.sock != null
    ensures d.attempts == [ConnectAttempt(true), SendAttempt(false), ConnectAttempt(true), SendAttempt(true)]
    ensures d.accepted == [LaunchMessage()]
  {
    d := new LuaSocketDispatcher("127.0.0.1", 9999, true, true);
    SampleStampIsFloat();
    var net := Network([true], [false, true]);
    assert Run(true, true, net) == ([SendAttempt(false), ConnectAttempt(true), SendAttempt(true)], true) by {
      assert !net.SendSucceeds(0) && net.ConnectSucceeds(0) && net.SendSucceeds(1);
    }
    var delivered := d.Dispatch("launch", Some(LaunchArgs), SampleStamp, net);
  }

  /** If the accepted bytes reach the listener, it reads one line holding the `launch` envelope. */
  lemma LaunchLineReadsBack()
    ensures WellFormed(LaunchMessage())
    ensures |SplitLines(Stream([LaunchMessage()]))| == 1
    ensures ReadLine(SplitLines(Stream([LaunchMessage()]))[0]) == Some(LaunchMessage())
    ensures FromJson(LaunchMessage()) == Some(Envelope("launch", LaunchArgs, SampleStamp, Source))
  {
    SampleStampIsFloat();
    DispatchedLineReadsBack("launch", Some(LaunchArgs), SampleStamp);
    StreamReadsBack([LaunchMessage()]);
  }
}
