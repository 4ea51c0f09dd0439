/**
 * The hand-off between the server's compute thread, its I/O thread and the
 * client, for one offloaded operation (src/seal/he_seal_executable.cpp). Relu
 * and MaxPool use the same pattern: write a request, wait on a condition
 * variable for a flag that the I/O thread raises after appending the reply's
 * ciphertexts, lower the flag, go on to the next request. A request that cannot
 * be built throws; a client that cannot read or answer a request throws in its
 * turn, and with its socket closed the session's pending header read throws in
 * the server's I/O thread (src/tcp/tcp_session.hpp), which ends the server.
 *
 * Each label below is one indivisible step; the theorems hold for every
 * interleaving of the three parties, with any finite number of spurious wakeups.
 */
module OffloadRounds {
  import opened Outcomes

  /**
   * One operation: its requests in order (None where building the request
   * throws) and the client's answer to each (None where the client throws).
   */
  datatype Config<!Req(==), !Cipher(==)> = Config(requests: seq<Option<Req>>, serve: Req -> Option<seq<Cipher>>)

  /** Request i can be built and is answered. */
  predicate Answered<Req(==), Cipher(==)>(c: Config<Req, Cipher>, i: nat)
    requires i < |c.requests|
  {
    c.requests[i].Some? && c.serve(c.requests[i].value).Some?
  }

  predicate AllAnswered<Req(==), Cipher(==)>(c: Config<Req, Cipher>)
  {
    forall i :: 0 <= i < |c.requests| ==> Answered(c, i)
  }

  datatype Owner = Free | Compute | Io

  datatype ComputePc =
    | Writing    // about to build and write the next request, or done with all of them
    | WantLock   // before the mutex, on the first attempt or after a wakeup
    | Checking   // holds the mutex, evaluates the flag
    | Blocked    // inside the condition variable's wait, mutex released
    | Woken      // holds the mutex and has seen the flag
    | Releasing  // flag lowered, mutex still held
    | Finished
    | Failed
    | Aborted    // the process has ended with an exception in the I/O thread

  datatype IoPc<Cipher> =
    | Listening
    | IoWantLock(reply: seq<Cipher>)
    | Appending(reply: seq<Cipher>)
    | Raising
    | Notifying
    | Unlocking

  datatype State<Req, Cipher> = State(
    round: nat,
    pc: ComputePc,
    io: IoPc<Cipher>,
    owner: Owner,
    done: bool,
    results: seq<Cipher>,
    toClient: seq<Req>,
    toServer: seq<seq<Cipher>>,
    clientDown: bool,
    output: Option<seq<Cipher>>,
    spuriousLeft: nat)

  datatype Label =
    | Write | Throw | Finish
    | Lock | SeeFlag | Block | SpuriousWakeup | Lower | Release
    | Serve | Crash
    | Disconnect // the pending header read finds the client's socket closed and throws
    | Receive | IoLock | Append | Raise | Notify | IoUnlock

  /** The operation starts with its buffer cleared and the flag down; nothing of an earlier operation is in flight. */
  predicate Init<Req(==), Cipher(==)>(c: Config<Req, Cipher>, s: State<Req, Cipher>)
  {
    && s.round == 0 && s.pc == Writing && s.io == Listening && s.owner == Free && !s.done
    && s.results == [] && s.toClient == [] && s.toServer == [] && !s.clientDown && s.output == None
  }

  predicate Enabled<Req(==), Cipher(==)>(c: Config<Req, Cipher>, s: State<Req, Cipher>, l: Label)
  {
    match l
    case Write => s.pc == Writing && s.round < |c.requests| && c.requests[s.round].Some?
    case Throw => s.pc == Writing && s.round < |c.requests| && c.requests[s.round].None?
    case Finish => s.pc == Writing && s.round >= |c.requests|
    case Lock => s.pc == WantLock && s.owner == Free
    case SeeFlag => s.pc == Checking && s.done
    case Block => s.pc == Checking && !s.done
    case SpuriousWakeup => s.pc == Blocked && s.spuriousLeft > 0
    case Lower => s.pc == Woken
    case Release => s.pc == Releasing
    case Serve => s.toClient != [] && c.serve(s.toClient[0]).Some?
    case Crash => s.toClient != [] && c.serve(s.toClient[0]).None?
    case Disconnect => s.clientDown && s.io == Listening && s.toServer == [] && s.pc != Aborted
    case Receive => s.io == Listening && s.toServer != []
    case IoLock => s.io.IoWantLock? && s.owner == Free
    case Append => s.io.Appending?
    case Raise => s.io == Raising
    case Notify => s.io == Notifying
    case IoUnlock => s.io == Unlocking
  }

  function Apply<Req(==), Cipher(==)>(c: Config<Req, Cipher>, s: State<Req, Cipher>, l: Label): State<Req, Cipher>
    requires Enabled(c, s, l)
  {
    match l
    case Write => s.(pc := WantLock, toClient := s.toClient + [c.requests[s.round].value])
    case Throw => s.(pc := Failed)
    case Finish => s.(pc := Finished, output := Some(s.results))
    case Lock => s.(pc := Checking, owner := Compute)
    case SeeFlag => s.(pc := Woken)
    case Block => s.(pc := Blocked, owner := Free)
    case SpuriousWakeup => s.(pc := WantLock, spuriousLeft := s.spuriousLeft - 1)
    case Lower => s.(pc := Releasing, done := false)
    case Release => s.(pc := Writing, owner := Free, round := s.round + 1)
    case Serve => s.(toClient := s.toClient[1..], toServer := s.toServer + [c.serve(s.toClient[0]).value])
    case Crash => s.(toClient := s.toClient[1..], clientDown := true)
    case Disconnect => s.(pc := Aborted, owner := Free)
    case Receive => s.(io := IoWantLock(s.toServer[0]), toServer := s.toServer[1..])
    case IoLock => s.(io := Appending(s.io.reply), owner := Io)
    case Append => s.(io := Raising, results := s.results + s.io.reply)
    case Raise => s.(io := Notifying, done := true)
    case Notify => s.(io := Unlocking, pc := if s.pc == Blocked then WantLock else s.pc)
    case IoUnlock => s.(io := Listening, owner := Free)
  }

  predicate Final<Req, Cipher>(s: State<Req, Cipher>)
  {
    s.pc == Finished || s.pc == Failed || s.pc == Aborted
  }

  /** All replies to a list of requests, one after the other. */
  function Replies<Req(==), Cipher(==)>(c: Config<Req, Cipher>, upto: nat): seq<Cipher>
    requires upto <= |c.requests|
  {
    if upto == 0 then []
    else Replies(c, upto - 1) + if Answered(c, upto - 1) then c.serve(c.requests[upto - 1].value).value else []
  }

  predicate Waiting(pc: ComputePc)
  {
    pc == WantLock || pc == Checking || pc == Blocked
  }

  /** The reply to the current round has been appended already. */
  predicate Appended<Req(==), Cipher(==)>(s: State<Req, Cipher>)
  {
    || s.pc == Woken || s.pc == Releasing
    || (Waiting(s.pc) && (s.done || s.io == Raising))
  }

  predicate Quiet<Req(==), Cipher(==)>(s: State<Req, Cipher>)
  {
    s.toClient == [] && s.toServer == []
  }

  /** Where the one outstanding exchange is, while the compute thread waits. */
  predicate ExchangeInPlace<Req(==), Cipher(==)>(c: Config<Req, Cipher>, s: State<Req, Cipher>)
    requires s.round < |c.requests| && c.requests[s.round].Some?
  {
    var answer := c.serve(c.requests[s.round].value);
    if s.clientDown then s.io == Listening && !s.done && Quiet(s) && answer == None
    else if s.io == Listening && s.toClient != [] then
      !s.done && s.toClient == [c.requests[s.round].value] && s.toServer == []
    else
      && answer.Some? && s.toClient == []
      && match s.io
         case Listening => if s.done then s.toServer == [] else s.toServer == [answer.value]
         case IoWantLock(reply) => !s.done && s.toServer == [] && reply == answer.value
         case Appending(reply) => !s.done && s.toServer == [] && reply == answer.value
         case Raising => !s.done && s.toServer == []
         case Notifying => s.done && s.toServer == []
         case Unlocking => s.done && s.toServer == []
  }

  predicate Inv<Req(==), Cipher(==)>(c: Config<Req, Cipher>, s: State<Req, Cipher>)
  {
    && s.round <= |c.requests|
    && (forall i :: 0 <= i < s.round ==> Answered(c, i))
    // mutual exclusion
    && (s.owner == Compute <==> s.pc == Checking || s.pc == Woken || s.pc == Releasing)
    && (s.owner == Io <==> s.io.Appending? || s.io == Raising || s.io == Notifying || s.io == Unlocking)
    // one exchange at a time
    && (Waiting(s.pc) || s.pc == Woken || s.pc == Releasing ==>
          s.round < |c.requests| && c.requests[s.round].Some?)
    && (Waiting(s.pc) ==> ExchangeInPlace(c, s))
    && (!Waiting(s.pc) ==> Quiet(s) && s.io == Listening && (s.clientDown <==> s.pc == Aborted) && (s.done <==> s.pc == Woken))
    && (s.pc == Woken || s.pc == Releasing ==> Answered(c, s.round))
    // no wakeup is lost: a blocked thread with the flag up is about to be notified
    && (s.pc == Blocked && s.done ==> s.io == Notifying)
    && s.results == Replies(c, if Appended(s) then s.round + 1 else s.round)
    && (s.pc == Finished ==> s.round == |c.requests|)
    && (s.pc == Failed ==> s.round < |c.requests| && c.requests[s.round].None?)
    && (s.pc == Aborted ==> s.round < |c.requests| && c.requests[s.round].Some? && !Answered(c, s.round))
    && s.output == (if s.pc == Finished then Some(s.results) else None)
  }

  lemma InitInv<Req, Cipher>(c: Config<Req, Cipher>, s: State<Req, Cipher>)
    requires Init(c, s)
    ensures Inv(c, s)
  {}

  predicate ComputeStep(l: Label)
  {
    l.Write? || l.Throw? || l.Finish? || l.Lock? || l.SeeFlag? || l.Block? || l.SpuriousWakeup? || l.Lower? || l.Release?
  }

  lemma ComputeKeepsInv<Req, Cipher>(c: Config<Req, Cipher>, s: State<Req, Cipher>, l: Label)
    requires Inv(c, s) && Enabled(c, s, l) && ComputeStep(l)
    ensures Inv(c, Apply(c, s, l))
  {
    hide Replies;
  }

  lemma ClientKeepsInv<Req, Cipher>(c: Config<Req, Cipher>, s: State<Req, Cipher>, l: Label)
    requires Inv(c, s) && Enabled(c, s, l) && (l == Serve || l == Crash)
    ensures Inv(c, Apply(c, s, l))
  {
    assert s.toClient == [c.requests[s.round].value];
  }

  lemma AppendKeepsInv<Req, Cipher>(c: Config<Req, Cipher>, s: State<Req, Cipher>)
    requires Inv(c, s) && Enabled(c, s, Append)
    ensures Inv(c, Apply(c, s, Append))
  {
    assert Answered(c, s.round) && s.io.reply == c.serve(c.requests[s.round].value).value;
    assert Replies(c, s.round + 1) == Replies(c, s.round) + s.io.reply;
    hide Replies;
  }

  lemma IoKeepsInv<Req, Cipher>(c: Config<Req, Cipher>, s: State<Req, Cipher>, l: Label)
    requires Inv(c, s) && Enabled(c, s, l) && !ComputeStep(l) && l != Serve && l != Crash && l != Append
    ensures Inv(c, Apply(c, s, l))
  {
    hide Replies;
    if l == Receive {
      assert s.toServer == [c.serve(c.requests[s.round].value).value];
    }
  }

  lemma StepKeepsInv<Req, Cipher>(c: Config<Req, Cipher>, s: State<Req, Cipher>, l: Label)
    requires Inv(c, s) && Enabled(c, s, l)
    ensures Inv(c, Apply(c, s, l))
  {
    if ComputeStep(l) {
      ComputeKeepsInv(c, s, l);
    } else if l == Serve || l == Crash {
      ClientKeepsInv(c, s, l);
    } else if l == Append {
      AppendKeepsInv(c, s);
    } else {
      IoKeepsInv(c, s, l);
    }
  }

  /** Requests and replies under way: on either wire or in the I/O thread's hands. */
  function InFlight<Req, Cipher>(s: State<Req, Cipher>): nat
  {
    |s.toClient| + |s.toServer| + if s.io.IoWantLock? || s.io.Appending? then 1 else 0
  }

  lemma AtMostOneOutstanding<Req, Cipher>(c: Config<Req, Cipher>, s: State<Req, Cipher>)
    requires Inv(c, s)
    ensures InFlight(s) <= 1
    ensures InFlight(s) == 1 ==> Waiting(s.pc) && !s.done
  {}

  /**
   * Once the client is gone no reply comes: the compute thread never sees its
   * flag raised, the disconnect is there to be taken, and blocked for good
   * nothing else but a spurious wakeup is.
   */
  lemma LostClientEndsServer<Req, Cipher>(c: Config<Req, Cipher>, s: State<Req, Cipher>, l: Label)
    requires Inv(c, s) && s.clientDown && Enabled(c, s, l)
    ensures Waiting(s.pc) && !s.done && Enabled(c, s, Disconnect) && (s.pc == Blocked ==> l == Disconnect || l == SpuriousWakeup)
    ensures if l == Disconnect then Apply(c, s, l).pc == Aborted && Apply(c, s, l).output == None
            else Apply(c, s, l).clientDown && Waiting(Apply(c, s, l).pc) && Apply(c, s, l).results == s.results
  {
  }

  /** Until the operation has ended some step other than a spurious wakeup can be taken. */
  lemma NeverStuck<Req, Cipher>(c: Config<Req, Cipher>, s: State<Req, Cipher>)
    requires Inv(c, s) && !Final(s)
    ensures exists l :: l != SpuriousWakeup && Enabled(c, s, l)
  {
    var l :=
      if s.pc == Writing then
        if s.round == |c.requests| then Finish else if c.requests[s.round].Some? then Write else Throw
      else if s.pc == Woken then Lower
      else if s.pc == Releasing then Release
      else if s.pc == Checking then if s.done then SeeFlag else Block
      else match s.io
        case Listening =>
          if s.toClient != [] then if c.serve(s.toClient[0]).Some? then Serve else Crash
          else if s.toServer != [] then Receive else if s.clientDown then Disconnect else Lock
        case IoWantLock(_) => IoLock
        case Appending(_) => Append
        case Raising => Raise
        case Notifying => Notify
        case Unlocking => IoUnlock;
    assert Enabled(c, s, l);
  }

  // ------------------------------------------------------------------ progress

  function ExchangeRank<Req(==), Cipher(==)>(s: State<Req, Cipher>): nat
  {
    if s.pc == Writing then 10
    else if Final(s) then 0
    else if s.toClient != [] then 9
    else if s.toServer != [] then 8
    else match s.io
      case IoWantLock(_) => 7
      case Appending(_) => 6
      case Raising => 5
      case Notifying => 4
      case Unlocking => 3
      case Listening => 2
  }

  function ThreadRank(pc: ComputePc): nat
  {
    match pc
    case WantLock => 4
    case Checking => 3
    case Blocked => 2
    case Woken => 1
    case _ => 0
  }

  function RoundsLeft<Req(==), Cipher(==)>(c: Config<Req, Cipher>, s: State<Req, Cipher>): nat
  {
    if s.round <= |c.requests| then |c.requests| - s.round else 0
  }

  /** Every step makes progress in a lexicographic measure; a spurious wakeup only uses up its budget. */
  lemma StepDecreases<Req, Cipher>(c: Config<Req, Cipher>, s: State<Req, Cipher>, l: Label)
    requires Inv(c, s) && Enabled(c, s, l)
    ensures var s' := Apply(c, s, l);
            || s'.spuriousLeft < s.spuriousLeft
            || (s'.spuriousLeft == s.spuriousLeft && (
                 || RoundsLeft(c, s') < RoundsLeft(c, s)
                 || (RoundsLeft(c, s') == RoundsLeft(c, s) && (
                      || ExchangeRank(s') < ExchangeRank(s)
                      || (ExchangeRank(s') == ExchangeRank(s) && ThreadRank(s'.pc) < ThreadRank(s.pc))))))
  {
    match l
    case Serve => assert s.toClient == [c.requests[s.round].value];
    case Crash => assert s.toClient == [c.requests[s.round].value];
    case Receive => assert s.toServer == [c.serve(c.requests[s.round].value).value];
    case _ =>
  }

  /** A run takes enabled steps for as long as it is not final. */
  ghost predicate IsRun<Req, Cipher>(c: Config<Req, Cipher>, run: nat -> State<Req, Cipher>, choice: nat -> Label)
  {
    && Init(c, run(0))
    && forall i: nat :: !Final(run(i)) ==> Enabled(c, run(i), choice(i)) && run(i + 1) == Apply(c, run(i), choice(i))
  }

  lemma {:induction false} RunReachesEnd<Req, Cipher>(c: Config<Req, Cipher>, run: nat -> State<Req, Cipher>, choice: nat -> Label, i: nat)
    returns (k: nat)
    requires IsRun(c, run, choice) && Inv(c, run(i))
    ensures k >= i && Final(run(k)) && Inv(c, run(k))
    decreases run(i).spuriousLeft, RoundsLeft(c, run(i)), ExchangeRank(run(i)), ThreadRank(run(i).pc)
  {
    if Final(run(i)) {
      k := i;
    } else {
      assert Enabled(c, run(i), choice(i)) && run(i + 1) == Apply(c, run(i), choice(i));
      StepKeepsInv(c, run(i), choice(i));
      StepDecreases(c, run(i), choice(i));
      k := RunReachesEnd(c, run, choice, i + 1);
    }
  }

  /**
   * Every run ends. It delivers the concatenated replies exactly when every
   * request can be built and is answered. Otherwise it stops at the first one
   * for which that fails: by throwing, or, once the client is gone, by the
   * exception of the session's pending read.
   */
  lemma EveryRunDelivers<Req, Cipher>(c: Config<Req, Cipher>, run: nat -> State<Req, Cipher>, choice: nat -> Label)
    returns (k: nat)
    requires IsRun(c, run, choice)
    ensures Final(run(k))
    ensures run(k).pc == Finished <==> AllAnswered(c)
    ensures run(k).pc == Finished ==> run(k).output == Some(Replies(c, |c.requests|))
    ensures run(k).pc != Finished ==>
              && run(k).round < |c.requests| && run(k).output == None
              && (forall i :: 0 <= i < run(k).round ==> Answered(c, i)) && !Answered(c, run(k).round)
              && (run(k).pc == Failed <==> c.requests[run(k).round] == None)
  {
    InitInv(c, run(0));
    k := RunReachesEnd(c, run, choice, 0);
    if run(k).pc != Finished {
      assert !Answered(c, run(k).round);
    }
  }
}
