/**
 The two loops that drive the client handshake: ssl_client_handshake, which runs states until
 one has to wait, and ssl_run_handshake, which resolves what the handshake waits for and
 returns to the application when it cannot (handshake_client.cc, handshake.cc).
 */
module HandshakeDriver {
  import opened Wrappers
  import opened ClientHandshake
  import opened HandshakeRuns

  /**
   One operation on the transport: done, to be tried again at once, or blocked, closed or
   broken.  When the transport is read, complete handshake messages may arrive.
   */
  datatype Io = Done(arrived: seq<Message>) | Again(arrived: seq<Message>) | Stop(ret: int)

  class Client {
    const cfg: Config
    /** What the environment answers to the steps, in the order in which they are taken. */
    const answers: nat -> Answers
    var clock: nat
    /** What the transport will do before it blocks. */
    var io: seq<Io>
    var hs: Handshake
    var wait: Wait
    ghost const first: Handshake
    ghost var log: seq<Event>
    ghost var inputs: seq<Input>

    ghost function View(): Machine
      reads this
    {
      Machine(hs, wait, log)
    }

    /** The object is where the run of its inputs leads. */
    ghost predicate Valid()
      reads this
    {
      && Initial(first)
      && View() == Run(cfg, Start(first), inputs)
      && forall k | 0 <= k < |io| :: io[k].Stop? ==> io[k].ret <= 0
    }

    constructor (cfg: Config, answers: nat -> Answers, io: seq<Io>, hs: Handshake)
      requires Initial(hs) && forall k | 0 <= k < |io| :: io[k].Stop? ==> io[k].ret <= 0
      ensures Valid() && first == hs && log == []
    {
      this.cfg, this.answers, this.io, this.hs := cfg, answers, io, hs;
      clock, wait, log, inputs, first := 0, Ok, [], [], hs;
    }

    /** One more input. */
    ghost method Note(input: Input)
      requires View() == Tick(cfg, Run(cfg, Start(first), inputs), input)
      modifies this`inputs
      ensures View() == Run(cfg, Start(first), inputs)
    {
      RunOneMore(cfg, Start(first), inputs, input);
      inputs := inputs + [input];
    }

    /** ssl_client_handshake */
    method ClientHandshake() returns (ret: Wait)
      requires Valid() && wait.Ok?
      modifies this
      ensures Valid() && ret == wait && io == old(io)
      ensures ret.Ok? ==> hs.state == DONE
    {
      hide Step, Run, Invariant;
      ret := Ok;
      StartIsInvariant(cfg, first);
      while hs.state != DONE
        invariant Valid() && wait.Ok? && io == old(io)
        decreases StepsLeft()
      {
        RunKeepsInvariant(cfg, first.session, Start(first), inputs);
        StepInRange(cfg, first.session, View(), answers(clock));
        var o := Step(cfg, hs, answers(clock));
        ghost var input := Input(answers(clock), true, []);
        RunKeepsRange(cfg, first, inputs);
        PauseLeavesNoTrace(cfg, hs, answers(clock));
        clock := clock + 1;
        match o {
          case Failed => wait := Error;
          case Paused(next, w, events) => hs, wait, log := next, w, log + events;
          case Advanced(next, w, events) => hs, wait, log := next, w, log + events;
        }
        Note(input);
        if !wait.Ok? {
          return wait;
        }
      }
    }

    ghost function StepsLeft(): int
      reads this
    {
      RankOf(hs)
    }

    /** Waits for one operation of the transport. */
    method Transport() returns (result: Io)
      requires forall k | 0 <= k < |io| :: io[k].Stop? ==> io[k].ret <= 0
      modifies this`io
      ensures result.Stop? ==> result.ret <= 0
      ensures !result.Stop? ==> |io| < |old(io)|
      ensures forall k | 0 <= k < |io| :: io[k].Stop? ==> io[k].ret <= 0
    {
      if io == [] {
        return Stop(-1);
      }
      result := io[0];
      io := io[1..];
    }

    /** ssl_run_handshake: 1 when the handshake is done or data may be written early, otherwise at most 0. */
    method RunHandshake() returns (ret: int, early: bool)
      requires Valid()
      modifies this
      ensures Valid()
      ensures ret == 1 && !early ==> wait.Ok? && hs.state == DONE
      ensures ret <= 0 || ret == 1
      ensures old(wait).Error? ==> ret == -1 && View() == old(View())
      ensures ret == 1 && !early && hs.connection.version < TLS1_3 ==> FinishedUnderNewKeys(cfg, log, hs.Master())
    {
      hide Run, Step, FinishedUnderNewKeys;
      early := false;
      while true
        invariant Valid()
        invariant old(wait).Error? ==> View() == old(View())
        decreases |io|, wait.Ok?
      {
        if wait.Error? {
          return -1, false;
        } else if wait.Flush? || wait.ReadHello? || wait.ReadMessage? || wait.ReadChangeCipherSpec? {
          var result := Transport();
          if result.Stop? {
            return result.ret, false;
          }
          if !wait.Flush? {
            hs := Arrive(hs, result.arrived);
          }
          if result.Again? {
            Note(Input(answers(clock), false, result.arrived));
            continue;
          }
          if wait.ReadChangeCipherSpec? {
            log := log + [ChangeCipherSpecAccepted];
          }
          wait := Ok;
          Note(Input(answers(clock), true, result.arrived));
        } else if wait.EarlyReturn? {
          wait := Ok;
          Note(Input(answers(clock), true, []));
          return 1, true;
        } else if !wait.Ok? {
          wait := Ok;
          Note(Input(answers(clock), true, []));
          return -1, false;
        }
        var w := ClientHandshake();
        if w.Error? {
          return -1, false;
        }
        if w.Ok? {
          CompletedHandshakesAreSafe(cfg, first, inputs);
          return 1, false;
        }
      }
    }
  }

  /**
   ssl_verify_peer_cert: a renegotiation compares the certificates one by one with those of
   the established session and does not verify them again.
   */
  method VerifyPeer(cfg: Config, established: Option<seq<seq<bv8>>>, certs: seq<seq<bv8>>, answer: VerifyResult)
    returns (ret: VerifyResult)
    ensures ret == VerifyPeerCert(cfg, established, certs, answer)
    ensures established.Some? ==> ret == if certs == established.value then VerifyOk else VerifyInvalid
    ensures established.None? ==>
              (ret == VerifyOk <==> answer.VerifyOk? || (cfg.customVerify && cfg.verifyNone && answer.VerifyInvalid?))
    ensures ret == VerifyRetry <==> established.None? && cfg.customVerify && answer.VerifyRetry?
  {
    if established.Some? {
      var previous := established.value;
      if |previous| != |certs| {
        return VerifyInvalid;
      }
      for i := 0 to |certs|
        invariant previous[..i] == certs[..i]
      {
        if previous[i] != certs[i] {
          return VerifyInvalid;
        }
      }
      assert previous == previous[..|certs|] == certs[..|certs|] == certs;
      return VerifyOk;
    }
    if cfg.customVerify {
      ret := answer;
      if ret.VerifyInvalid? && cfg.verifyNone {
        ret := VerifyOk;
      }
    } else {
      ret := if answer.VerifyOk? then VerifyOk else VerifyInvalid;
    }
  }

  lemma {:induction false} RunOneMore(cfg: Config, m: Machine, inputs: seq<Input>, input: Input)
    ensures Run(cfg, m, inputs + [input]) == Tick(cfg, Run(cfg, m, inputs), input)
    decreases |inputs|
  {
    hide Tick;
    if inputs == [] {
      assert ([] + [input])[1..] == [];
    } else {
      assert (inputs + [input])[1..] == inputs[1..] + [input];
      RunOneMore(cfg, Tick(cfg, m, inputs[0]), inputs[1..], input);
    }
  }

  lemma RunKeepsRange(cfg: Config, hs: Handshake, inputs: seq<Input>)
    requires Initial(hs)
    ensures 0 <= Run(cfg, Start(hs), inputs).hs.state <= DONE
  {
    hide Run, Follows, CookiesForgotten;
    StartIsInvariant(cfg, hs);
    RunKeepsInvariant(cfg, hs.session, Start(hs), inputs);
  }

  lemma StepInRange(cfg: Config, configured: Option<Session>, m: Machine, a: Answers)
    requires Invariant(cfg, configured, m) && m.hs.state != DONE
    ensures var o := Step(cfg, m.hs, a); o.Advanced? ==> 0 <= RankOf(o.hs) < RankOf(m.hs)
  {
    hide Step;
  }
}
