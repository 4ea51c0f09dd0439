/**
 * One client session with one call: handshake, offload rounds, result
 * (src/seal/he_seal_executable.cpp, src/seal/he_seal_client.cpp). Channels are
 * FIFO message queues (TcpChannel) and an offload round's condition-variable
 * hand-off is one guarded step here (OffloadRounds).
 */
module Session {
  import opened Outcomes
  import opened Arithmetic
  import opened Coordinates

  datatype Message =
    | EncryptionParameters
    | PublicKey
    | EvalKey
    | ParameterSize(size: nat)
    | Execute(count: nat)
    | Request(round: nat)
    | Reply(round: nat)
    | ResultMessage

  /** The compiled function's parameter shape and the client's data. */
  datatype Config = Config(shape: seq<nat>, batchData: bool, rounds: nat,
                           clientInputs: nat, clientBatchSize: nat, clientPacking: bool)
  {
    function ShapeSize(): nat { Size(shape) }

    function BatchSize(): nat
      requires batchData ==> shape != []
    {
      if batchData then shape[0] else 1
    }

    /** What the eval_key branch sends, divided only when data is batched. */
    function AnnouncedSize(): nat
      requires Valid()
    {
      if batchData then ShapeSize() / BatchSize() else ShapeSize()
    }

    /** What the execute branch checks the count against, divided always. */
    function ExpectedCount(): nat
      requires Valid()
    {
      ShapeSize() / BatchSize()
    }

    predicate Valid()
    {
      (batchData ==> shape != []) && Size(shape) > 0 && BatchSize() > 0
    }

    /** The client's assertions that it holds as many values as it is asked for, in an even batch when packing. */
    predicate ClientHasData(parameterSize: nat)
    {
      && (clientPacking ==> clientBatchSize % 2 == 0)
      && clientInputs == parameterSize * clientBatchSize * if clientPacking then 2 else 1
    }
  }

  /** Both sides divide the same shape: the announced size is positive and passes the execute check. */
  lemma CountsAgree(c: Config)
    requires c.Valid()
    ensures c.AnnouncedSize() == c.ExpectedCount() > 0
    ensures if c.batchData then c.AnnouncedSize() * c.shape[0] == Size(c.shape) else c.AnnouncedSize() == Size(c.shape)
  {
    if c.batchData {
      var rest := Size(c.shape[1..]);
      assert c.shape == [c.shape[0]] + c.shape[1..];
      SizeAppend([c.shape[0]], c.shape[1..]);
      assert Size([c.shape[0]]) == c.shape[0] by { assert Front([c.shape[0]]) == []; }
      assert c.ShapeSize() == rest * c.shape[0] + 0;
      DivModUnique(c.ShapeSize(), c.shape[0], rest, 0);
    } else {
      assert c.ShapeSize() / 1 == c.ShapeSize();
    }
  }

  datatype MainPc =
    | AwaitSession          // in the constructor, waiting for the client to connect
    | AwaitInputs           // in call, waiting for the client's inputs
    | Computing(round: nat) // executing operations, about to start this offload round
    | Offloading(round: nat)
    | Returned

  datatype State = State(
    pc: MainPc,
    sessionStarted: bool,
    publicKey: bool,
    evalKey: bool,
    inputs: Option<nat>,
    replies: nat,
    serverThrew: bool,
    clientContext: bool,
    clientAborted: bool,
    clientDone: bool,
    toClient: seq<Message>,
    toServer: seq<Message>,
    log: seq<Message>)

  datatype Label = Accept | WriteParameters | ClientStep | ServerStep | TakeInputs | WriteRequest | TakeReply | WriteResult

  const START := State(AwaitSession, false, false, false, None, 0, false, false, false, false, [], [], [])

  predicate Enabled(c: Config, s: State, l: Label)
  {
    match l
    case Accept => !s.sessionStarted
    case WriteParameters => s.pc == AwaitSession && s.sessionStarted
    case ClientStep => s.toClient != [] && !s.clientDone && !s.clientAborted
    case ServerStep => s.toServer != [] && !s.serverThrew
    case TakeInputs => s.pc == AwaitInputs && s.inputs.Some?
    case WriteRequest => s.pc.Computing? && s.pc.round < c.rounds
    case TakeReply => s.pc.Offloading? && s.replies > s.pc.round
    case WriteResult => s.pc.Computing? && s.pc.round >= c.rounds
  }

  function SendToClient(s: State, m: Message): State
  {
    s.(toClient := s.toClient + [m], log := s.log + [m])
  }

  function SendToServer(s: State, m: Message): State
  {
    s.(toServer := s.toServer + [m], log := s.log + [m])
  }

  /** HESealClient::handle_message */
  function ClientHandles(c: Config, s: State, m: Message): State
    requires c.Valid()
  {
    match m
    case EncryptionParameters => SendToServer(SendToServer(s.(clientContext := true), PublicKey), EvalKey)
    case ParameterSize(n) => if c.ClientHasData(n) then SendToServer(s, Execute(n)) else s.(clientAborted := true)
    case Request(i) => SendToServer(s, Reply(i))
    case ResultMessage => s.(clientDone := true)
    case _ => s
  }

  /** HESealExecutable::handle_message */
  function ServerHandles(c: Config, s: State, m: Message): State
    requires c.Valid()
  {
    match m
    case PublicKey => s.(publicKey := true)
    case EvalKey => SendToClient(s.(evalKey := true), ParameterSize(c.AnnouncedSize()))
    case Execute(count) => if count == c.ExpectedCount() then s.(inputs := Some(count)) else s.(serverThrew := true)
    case Reply(_) => s.(replies := s.replies + 1)
    case _ => s.(serverThrew := true)
  }

  function Apply(c: Config, s: State, l: Label): State
    requires c.Valid() && Enabled(c, s, l)
  {
    match l
    case Accept => s.(sessionStarted := true)
    case WriteParameters => SendToClient(s, EncryptionParameters).(pc := AwaitInputs)
    case ClientStep => ClientHandles(c, s.(toClient := s.toClient[1..]), s.toClient[0])
    case ServerStep => ServerHandles(c, s.(toServer := s.toServer[1..]), s.toServer[0])
    case TakeInputs => s.(pc := Computing(0))
    case WriteRequest => SendToClient(s, Request(s.pc.round)).(pc := Offloading(s.pc.round))
    case TakeReply => s.(pc := Computing(s.pc.round + 1))
    case WriteResult => SendToClient(s, ResultMessage).(pc := Returned)
  }

  /** The conversation up to the start of an offload round. */
  function Script(c: Config, round: nat): seq<Message>
    requires c.Valid()
  {
    if round == 0 then
      [EncryptionParameters, PublicKey, EvalKey, ParameterSize(c.AnnouncedSize()), Execute(c.AnnouncedSize())]
    else Script(c, round - 1) + [Request(round - 1), Reply(round - 1)]
  }

  function WholeScript(c: Config): seq<Message>
    requires c.Valid()
  {
    Script(c, c.rounds) + [ResultMessage]
  }

  predicate Silent(s: State)
  {
    s.toClient == [] && s.toServer == []
  }

  predicate Inv(c: Config, s: State)
    requires c.Valid()
  {
    var n := c.AnnouncedSize();
    var h := Script(c, 0);
    && !s.serverThrew
    && (s.clientDone ==> s.pc == Returned)
    && (s.clientAborted ==> s.pc == AwaitInputs)
    && (s.inputs.Some? ==> c.ClientHasData(n))
    && match s.pc
       case AwaitSession => s == START.(sessionStarted := s.sessionStarted)
       case AwaitInputs =>
         && s.sessionStarted && s.replies == 0
         && (s.clientContext <==> |s.log| >= 3)
         && (  (s.log == h[..1] && s.toClient == h[..1] && s.toServer == [] && !s.publicKey && !s.evalKey && s.inputs == None)
            || (s.log == h[..3] && s.toClient == [] && s.toServer == h[1..3] && !s.publicKey && !s.evalKey && s.inputs == None)
            || (s.log == h[..3] && s.toClient == [] && s.toServer == h[2..3] && s.publicKey && !s.evalKey && s.inputs == None)
            || (s.log == h[..4] && s.toClient == h[3..4] && s.toServer == [] && s.publicKey && s.evalKey && s.inputs == None)
            || (s.log == h && s.toClient == [] && s.toServer == h[4..5] && s.publicKey && s.evalKey && s.inputs == None
                && c.ClientHasData(n))
            || (s.log == h && Silent(s) && s.publicKey && s.evalKey && s.inputs == Some(n))
            || (s.log == h[..4] && Silent(s) && s.clientAborted && s.inputs == None && !c.ClientHasData(n)))
         && (s.clientAborted ==> s.log == h[..4] && Silent(s) && s.inputs == None && !c.ClientHasData(n) && s.evalKey)
       case Computing(i) =>
         && Installed(c, s) && i <= c.rounds && s.replies == i && Silent(s) && s.log == Script(c, i)
       case Offloading(i) =>
         && Installed(c, s) && i < c.rounds
         && (  (s.replies == i && s.toClient == [Request(i)] && s.toServer == [] && s.log == Script(c, i) + [Request(i)])
            || (s.replies == i && s.toClient == [] && s.toServer == [Reply(i)] && s.log == Script(c, i + 1))
            || (s.replies == i + 1 && Silent(s) && s.log == Script(c, i + 1)))
       case Returned =>
         && Installed(c, s) && s.log == WholeScript(c) && s.toServer == []
         && s.toClient == if s.clientDone then [] else [ResultMessage]
  }

  /** The keys and the client's inputs are in place. */
  predicate Installed(c: Config, s: State)
    requires c.Valid()
  {
    s.sessionStarted && s.publicKey && s.evalKey && s.clientContext && s.inputs == Some(c.AnnouncedSize())
  }

  /** The handshake's parts in flight. */
  lemma Handshake(c: Config)
    requires c.Valid()
    ensures var h, n := Script(c, 0), c.AnnouncedSize();
            && h[..1] == [EncryptionParameters] && h[1..3] == [PublicKey, EvalKey] && h[2..3] == [EvalKey]
            && h[3..4] == [ParameterSize(n)] && h[4..5] == [Execute(n)]
            && h[..1] + h[1..3] == h[..3] && h[..3] + h[3..4] == h[..4] && h[..4] + h[4..5] == h
  {}

  lemma StepKeepsInv(c: Config, s: State, l: Label)
    requires c.Valid() && Inv(c, s) && Enabled(c, s, l)
    ensures Inv(c, Apply(c, s, l))
  {
    if s.pc == AwaitInputs {
      HandshakeKeepsInv(c, s, l);
    } else if s.pc.Offloading? {
      var i := s.pc.round;
      assert Script(c, i + 1) == (Script(c, i) + [Request(i)]) + [Reply(i)];
    }
  }

  lemma HandshakeKeepsInv(c: Config, s: State, l: Label)
    requires c.Valid() && Inv(c, s) && Enabled(c, s, l) && s.pc == AwaitInputs
    ensures Inv(c, Apply(c, s, l))
  {
    CountsAgree(c);
    Handshake(c);
  }

  predicate Final(s: State)
  {
    s.pc == Returned && s.clientDone
  }

  lemma {:induction false} ScriptGrows(c: Config, i: nat, k: nat)
    requires c.Valid() && i <= k
    ensures Script(c, i) <= Script(c, k)
  {
    if i == k {
    } else {
      ScriptGrows(c, i, k - 1);
    }
  }

  /** At every reachable state the messages written so far are a front part of the one legal conversation. */
  lemma LogFollowsScript(c: Config, s: State)
    requires c.Valid() && Inv(c, s)
    ensures s.log <= WholeScript(c)
  {
    ScriptGrows(c, 0, c.rounds);
    match s.pc
    case Computing(i) => ScriptGrows(c, i, c.rounds);
    case Offloading(i) =>
      ScriptGrows(c, i + 1, c.rounds);
      assert Script(c, i) + [Request(i)] <= Script(c, i + 1);
    case _ =>
  }

  /** No operation runs before the client's keys and inputs are installed, or without its data; the count check never fails. */
  lemma NothingRunsEarly(c: Config, s: State)
    requires c.Valid() && Inv(c, s)
    ensures s.pc.Computing? || s.pc.Offloading? || s.pc.Returned? ==>
              Installed(c, s) && c.ClientHasData(c.AnnouncedSize())
    ensures !s.serverThrew
    ensures s.inputs.Some? ==> s.inputs.value == c.ExpectedCount()
  {
    CountsAgree(c);
  }

  /** How far a session has come; every step moves it on by exactly one. */
  function Stage(c: Config, s: State): nat
  {
    match s.pc
    case AwaitSession => if s.sessionStarted then 1 else 0
    case AwaitInputs =>
      if s.inputs.Some? then 7
      else if s.toClient != [] then if s.evalKey then 5 else 2
      else if s.evalKey then 6 else if s.publicKey then 4 else 3
    case Computing(i) => 8 + 4 * i
    case Offloading(i) => 9 + 4 * i + if s.toClient != [] then 0 else if s.toServer != [] then 1 else 2
    case Returned => 9 + 4 * c.rounds + if s.clientDone then 1 else 0
  }

  lemma StepAdvances(c: Config, s: State, l: Label)
    requires c.Valid() && Inv(c, s) && Enabled(c, s, l)
    ensures Stage(c, Apply(c, s, l)) == Stage(c, s) + 1
  {
    CountsAgree(c);
    Handshake(c);
  }

  lemma StageBounded(c: Config, s: State)
    requires c.Valid() && Inv(c, s)
    ensures Stage(c, s) <= 10 + 4 * c.rounds
    ensures Final(s) <==> Stage(c, s) == 10 + 4 * c.rounds
  {}

  /** Until the client has its result, or has aborted for want of data, some step is enabled. */
  lemma NeverStuck(c: Config, s: State)
    requires c.Valid() && Inv(c, s) && !Final(s) && !s.clientAborted
    ensures exists l :: Enabled(c, s, l)
  {
    var l :=
      if !s.sessionStarted then Accept
      else if s.toClient != [] then ClientStep
      else if s.toServer != [] then ServerStep
      else match s.pc
        case AwaitSession => WriteParameters
        case AwaitInputs => TakeInputs
        case Computing(i) => if i < c.rounds then WriteRequest else WriteResult
        case Offloading(_) => TakeReply
        case Returned => ClientStep;
    assert Enabled(c, s, l);
  }

  ghost predicate IsRun(c: Config, run: nat -> State, choice: nat -> Label)
    requires c.Valid()
  {
    && run(0) == START
    && forall i: nat :: !Final(run(i)) && !run(i).clientAborted ==> Enabled(c, run(i), choice(i)) && run(i + 1) == Apply(c, run(i), choice(i))
  }

  lemma {:induction false} StageOfRun(c: Config, run: nat -> State, choice: nat -> Label, n: nat)
    requires c.Valid() && IsRun(c, run, choice) && c.ClientHasData(c.AnnouncedSize()) && n <= 10 + 4 * c.rounds
    ensures Inv(c, run(n)) && Stage(c, run(n)) == n
  {
    if n == 0 {
    } else {
      StageOfRun(c, run, choice, n - 1);
      var s, l := run(n - 1), choice(n - 1);
      StageBounded(c, s);
      assert !Final(s) && !s.clientAborted;
      assert Enabled(c, s, l) && run(n - 1 + 1) == Apply(c, s, l);
      StepKeepsInv(c, s, l);
      StepAdvances(c, s, l);
    }
  }

  /** With the data the client asserts, every session runs for the same number of steps and writes exactly the script. */
  lemma EverySessionCompletes(c: Config, run: nat -> State, choice: nat -> Label, i: nat)
    requires c.Valid() && IsRun(c, run, choice) && c.ClientHasData(c.AnnouncedSize())
    requires i <= 10 + 4 * c.rounds
    ensures Inv(c, run(i)) && run(i).log <= WholeScript(c)
    ensures Final(run(i)) <==> i == 10 + 4 * c.rounds
    ensures i == 10 + 4 * c.rounds ==> run(i).log == WholeScript(c)
  {
    StageOfRun(c, run, choice, i);
    StageBounded(c, run(i));
    LogFollowsScript(c, run(i));
  }
}
