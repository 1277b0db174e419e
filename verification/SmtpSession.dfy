/**
 The command states of an SMTP session in io/smtpe.c. A command and its hook are
 one step; the hook's reply is arbitrary, and any reply to the client may end the
 connection.
 */
module SmtpSession {
  import opened Wrappers

  type Address = string

  /** The handler that ctx->state points at; NoStage is the null pointer. */
  datatype Stage = NoStage | Accept | Helo | Ehlo | Mail | Rcpt | Data | Content

  // ---------- What the client sends ----------

  datatype PathArg = NoColon | NoAddress | BadPath(temporary: bool) | Path(address: Address)

  datatype XclientArg = Proto(stage: Option<Stage>) | Applied | Unknown

  datatype Input =
    | HeloCmd(arg: string)
    | EhloCmd(arg: string, piped: bool)
    | AuthCmd(plain: bool)
    | MailCmd(path: PathArg, tooBig: bool)
    | RcptCmd(path: PathArg)
    | DataCmd
    | RsetCmd
    | QuitCmd(piped: bool)
    | XclientCmd(args: seq<XclientArg>)
    | OtherCmd
    | Chunk(dot: bool)

  /** What a hook answers; Drop stands for an error in it or a client that is dropped. */
  datatype Reply = Code(rc: int) | Drop

  /** LUA_HOOK_OK: no reply, a default reply, or a 2xx. */
  predicate HookOk(rc: int) {
    rc < 200 || 200 <= rc < 300
  }

  const SMTP_WAITING: int := 354

  // ---------- The session ----------

  datatype Session = Session(
    stage: Stage,
    stageHelo: Stage,
    sender: Option<Address>,
    rcpts: seq<Address>,
    auth: bool,
    open: bool)

  const START: Session := Session(Accept, NoStage, None, [], false, true)

  /** client_reset */
  function Reset(s: Session): Session {
    s.(stage := s.stageHelo, sender := None, rcpts := [])
  }

  function AfterHelo(s: Session, stage: Stage, rc: int): Session {
    if HookOk(rc) then Reset(s.(stageHelo := stage)) else s.(stage := Accept)
  }

  function AfterMail(s: Session, path: PathArg, tooBig: bool, rc: int): Session {
    if s.stage !in {Helo, Ehlo} then s
    else match path
      case NoColon | NoAddress => s
      case BadPath(temporary) => s.(sender := None, open := s.open && !temporary)
      case Path(address) =>
        var s1 := s.(sender := Some(address));
        if tooBig then s1
        else if HookOk(rc) then s1.(stage := Mail)
        else s1.(stage := s.stageHelo)
  }

  function AfterRcpt(s: Session, path: PathArg, rc: int): Session {
    if s.stage !in {Mail, Rcpt} then s
    else match path
      case NoColon | NoAddress => s
      case BadPath(temporary) => s.(open := s.open && !temporary)
      case Path(address) =>
        if address == "" then s
        else if HookOk(rc) then s.(stage := Rcpt, rcpts := s.rcpts + [address])
        else s.(stage := Rcpt)
  }

  function AfterData(s: Session, rc: int): Session {
    if s.stage != Rcpt || s.rcpts == [] then s
    else if rc == 0 || rc == SMTP_WAITING then s.(stage := Data)
    else s
  }

  /** The arguments up to the first that is not understood. */
  function AfterArgs(stageHelo: Stage, args: seq<XclientArg>): (Stage, bool)
    decreases |args|
  {
    if args == [] then (stageHelo, true)
    else match args[0]
      case Unknown => (stageHelo, false)
      case Applied => AfterArgs(stageHelo, args[1..])
      case Proto(stage) => AfterArgs(if stage.Some? then stage.value else stageHelo, args[1..])
  }

  function AfterXclient(s: Session, args: seq<XclientArg>, rc: int): Session {
    if !HookOk(rc) then s
    else
      var (stageHelo, all) := AfterArgs(s.stageHelo, args);
      s.(stageHelo := stageHelo, stage := if all then Accept else s.stage)
  }

  function AfterChunk(s: Session, dot: bool): Session {
    if dot then Reset(s) else s.(stage := Content)
  }

  /** In DATA everything is content; elsewhere nothing is. */
  function Respond(s: Session, input: Input, rc: int): Session {
    if s.stage in {Data, Content} then
      if input.Chunk? then AfterChunk(s, input.dot) else s
    else match input
      case HeloCmd(arg) => if arg == "" then s else AfterHelo(s, Helo, rc)
      case EhloCmd(arg, piped) => if piped || arg == "" then s else AfterHelo(s, Ehlo, rc)
      case AuthCmd(plain) =>
        if s.stage != Ehlo || s.auth || !plain then s else s.(auth := true, stage := s.stageHelo)
      case MailCmd(path, tooBig) => AfterMail(s, path, tooBig, rc)
      case RcptCmd(path) => AfterRcpt(s, path, rc)
      case DataCmd => AfterData(s, rc)
      case RsetCmd => Reset(s)
      case QuitCmd(piped) => s.(open := piped)
      case XclientCmd(args) => AfterXclient(s, args, rc)
      case OtherCmd | Chunk(_) => s
  }

  /** One input and the reply of its hook. */
  function Step(s: Session, input: Input, reply: Reply): Session {
    if !s.open then s
    else match reply
      case Drop => s.(open := false)
      case Code(rc) => Respond(s, input, rc)
  }

  function Run(inputs: seq<(Input, Reply)>): Session {
    if inputs == [] then START
    else
      var (input, reply) := inputs[|inputs| - 1];
      Step(Run(inputs[..|inputs| - 1]), input, reply)
  }

  // ---------- What happened ----------

  /** What an input and its reply come to, for the greeting and the mail transaction. */
  datatype Entry =
    | Hello(greeting: Stage)
    | NoHello
    | AuthOk
    | Cleared
    | Proxied(proto: Option<Stage>, complete: bool)
    | MailOk(sender: Address)
    | MailNo
    | RcptOk(recipient: Address)
    | DataOk
    | Finished
    | Closed

  /** No input is answered any more after the connection was closed. */
  predicate Open(log: seq<Entry>) {
    Closed !in log
  }

  /** The last greeting, by HELO and EHLO or by XCLIENT. */
  function Greeting(log: seq<Entry>): Stage {
    if log == [] then NoStage
    else match log[|log| - 1]
      case Hello(greeting) => greeting
      case Proxied(Some(greeting), _) => greeting
      case _ => Greeting(log[..|log| - 1])
  }

  /** The greeting under which MAIL is taken next, if it is. */
  function Standing(log: seq<Entry>): Stage {
    if log == [] then NoStage
    else
      var before := log[..|log| - 1];
      match log[|log| - 1]
      case Hello(greeting) => greeting
      case NoHello | MailOk(_) => NoStage
      case Cleared | Finished | MailNo | AuthOk => Greeting(before)
      case Proxied(_, complete) => if complete then NoStage else Standing(before)
      case RcptOk(_) | DataOk | Closed => Standing(before)
  }

  /** The open transaction of a history: the last accepted MAIL and the RCPTs accepted since. */
  function Transaction(log: seq<Entry>): Option<(Address, seq<Address>)> {
    if log == [] then None
    else
      var before := Transaction(log[..|log| - 1]);
      match log[|log| - 1]
      case MailOk(sender) => Some((sender, []))
      case RcptOk(recipient) => if before.Some? then Some((before.value.0, before.value.1 + [recipient])) else None
      case Hello(_) | NoHello | Cleared | Finished => None
      case Proxied(_, complete) => if complete then None else before
      case _ => before
  }

  /** The message of an accepted DATA has not come to its end. */
  function Pending(log: seq<Entry>): bool {
    if log == [] then false
    else if log[|log| - 1].DataOk? then true
    else log[|log| - 1].Closed? && Pending(log[..|log| - 1])
  }

  /** How many of the arguments are understood. */
  function Understood(args: seq<XclientArg>): (n: nat)
    ensures n <= |args| && (n < |args| ==> args[n].Unknown?)
    ensures forall i :: 0 <= i < n ==> !args[i].Unknown?
  {
    if args == [] || args[0].Unknown? then 0 else 1 + Understood(args[1..])
  }

  /** The last protocol that the arguments name. */
  function LastProto(args: seq<XclientArg>): Option<Stage> {
    if args == [] then None
    else
      var last := args[|args| - 1];
      if last.Proto? && last.stage.Some? then last.stage else LastProto(args[..|args| - 1])
  }

  /** What an input and its reply come to, by the history alone. */
  function Happened(log: seq<Entry>, input: Input, reply: Reply): seq<Entry> {
    if !Open(log) then []
    else if reply.Drop? then [Closed]
    else if Pending(log) then
      if input.Chunk? && input.dot then [Finished] else []
    else
      var ok := reply.rc < 300;
      match input
      case HeloCmd(arg) => if arg == "" then [] else if ok then [Hello(Helo)] else [NoHello]
      case EhloCmd(arg, piped) => if arg == "" || piped then [] else if ok then [Hello(Ehlo)] else [NoHello]
      case AuthCmd(plain) => if Standing(log) == Ehlo && AuthOk !in log && plain then [AuthOk] else []
      case MailCmd(path, tooBig) =>
        if Standing(log) == NoStage then []
        else if path.Path? then (if tooBig then [] else if ok then [MailOk(path.address)] else [MailNo])
        else if path == BadPath(true) then [Closed] else []
      case RcptCmd(path) =>
        if Transaction(log).None? then []
        else if path.Path? then (if path.address != "" && ok then [RcptOk(path.address)] else [])
        else if path == BadPath(true) then [Closed] else []
      case DataCmd =>
        if Transaction(log).Some? && Transaction(log).value.1 != [] && (reply.rc == 0 || reply.rc == 354) then [DataOk]
        else []
      case RsetCmd => [Cleared]
      case QuitCmd(piped) => if piped then [] else [Closed]
      case XclientCmd(args) =>
        var n := Understood(args);
        if ok then [Proxied(LastProto(args[..n]), n == |args|)] else []
      case OtherCmd | Chunk(_) => []
  }

  function History(inputs: seq<(Input, Reply)>): seq<Entry> {
    if inputs == [] then []
    else
      var front, (input, reply) := inputs[..|inputs| - 1], inputs[|inputs| - 1];
      History(front) + Happened(History(front), input, reply)
  }

  lemma TransactionOfNothing()
    ensures Transaction([]) == None
  {
  }

  lemma TransactionSnoc(log: seq<Entry>, e: Entry)
    ensures Transaction(log + [e]) ==
      match e
      case MailOk(sender) => Some((sender, []))
      case RcptOk(recipient) =>
        if Transaction(log).Some? then Some((Transaction(log).value.0, Transaction(log).value.1 + [recipient])) else None
      case Hello(_) | NoHello | Cleared | Finished => None
      case Proxied(_, complete) => if complete then None else Transaction(log)
      case _ => Transaction(log)
  {
    assert (log + [e])[..|log|] == log;
  }

  lemma GreetingSnoc(log: seq<Entry>, e: Entry)
    ensures Greeting(log + [e]) ==
      match e
      case Hello(greeting) => greeting
      case Proxied(Some(greeting), _) => greeting
      case _ => Greeting(log)
    ensures Standing(log + [e]) ==
      match e
      case Hello(greeting) => greeting
      case NoHello | MailOk(_) => NoStage
      case Cleared | Finished | MailNo | AuthOk => Greeting(log)
      case Proxied(_, complete) => if complete then NoStage else Standing(log)
      case RcptOk(_) | DataOk | Closed => Standing(log)
  {
    assert (log + [e])[..|log|] == log;
  }

  lemma PendingSnoc(log: seq<Entry>, e: Entry)
    ensures Pending(log + [e]) <==> e.DataOk? || (e.Closed? && Pending(log))
    ensures Open(log + [e]) <==> Open(log) && e != Closed
    ensures AuthOk in log + [e] <==> AuthOk in log || e == AuthOk
  {
    assert (log + [e])[..|log|] == log;
  }

  // ---------- What every run keeps ----------

  /** The session is what its history says: every field that decides over an input, and the transaction. */
  predicate Inv(s: Session, log: seq<Entry>) {
    && s.open == Open(log) && s.auth == (AuthOk in log)
    && s.stageHelo == Greeting(log) && s.stageHelo in {NoStage, Helo, Ehlo}
    && Standing(log) == (if s.stage in {Helo, Ehlo} then s.stage else NoStage)
    && (Pending(log) <==> s.stage in {Data, Content})
    && (Transaction(log).Some? <==> s.stage in {Mail, Rcpt, Data, Content})
    && (Transaction(log).Some? ==> s.sender.Some? && Transaction(log) == Some((s.sender.value, s.rcpts)))
    && (s.stage in {Helo, Ehlo} ==> s.rcpts == [])
    && (s.stage in {Helo, Ehlo, Mail, Rcpt, Data, Content} ==> s.stageHelo != NoStage)
    && (s.stage == Mail ==> s.rcpts == [])
  }

  lemma {:induction false} ArgsAre(stageHelo: Stage, args: seq<XclientArg>)
    ensures var n := Understood(args);
            AfterArgs(stageHelo, args)
            == (if LastProto(args[..n]).Some? then LastProto(args[..n]).value else stageHelo, n == |args|)
    decreases |args|
  {
    var n := Understood(args);
    if n > 0 {
      var first := args[0];
      ArgsAre(if first.Proto? && first.stage.Some? then first.stage.value else stageHelo, args[1..]);
      assert args[..n] == [first] + args[1..][..n - 1];
      LastProtoFront(first, args[1..][..n - 1]);
    }
  }

  lemma {:induction false} LastProtoFront(first: XclientArg, args: seq<XclientArg>)
    ensures LastProto([first] + args)
         == if LastProto(args).Some? then LastProto(args)
            else if first.Proto? && first.stage.Some? then first.stage else None
  {
    if args == [] {
      assert [first] + args == [first];
    } else {
      var n := |args| - 1;
      assert ([first] + args)[..n + 1] == [first] + args[..n];
      LastProtoFront(first, args[..n]);
    }
  }

  lemma {:induction false} LastProtoNames(args: seq<XclientArg>)
    requires WellFormed(args)
    ensures LastProto(args).Some? ==> LastProto(args).value in {Helo, Ehlo}
  {
    if args != [] {
      LastProtoNames(args[..|args| - 1]);
    }
  }

  /** PROTO= names SMTP, ESMTP, or something that is ignored. */
  predicate WellFormed(args: seq<XclientArg>) {
    forall i :: 0 <= i < |args| && args[i].Proto? && args[i].stage.Some? ==> args[i].stage.value in {Helo, Ehlo}
  }

  predicate WellFormedInput(input: Input) {
    input.XclientCmd? ==> WellFormed(input.args)
  }

  lemma GreetingKeeps(s: Session, log: seq<Entry>, input: Input, rc: int)
    requires Inv(s, log) && s.open && !Pending(log)
    requires input.HeloCmd? || input.EhloCmd? || input.RsetCmd? || input.AuthCmd?
    ensures Inv(Step(s, input, Code(rc)), log + Happened(log, input, Code(rc)))
  {
    hide Pending, Greeting, Standing, Transaction, Open;
    var h := Happened(log, input, Code(rc));
    assert log + [] == log;
    if h != [] {
      assert h == [h[0]];
      PendingSnoc(log, h[0]);
      GreetingSnoc(log, h[0]);
      TransactionSnoc(log, h[0]);
    }
  }

  lemma PathKeeps(s: Session, log: seq<Entry>, input: Input, rc: int)
    requires Inv(s, log) && s.open && !Pending(log) && (input.MailCmd? || input.RcptCmd? || input.DataCmd?)
    ensures Inv(Step(s, input, Code(rc)), log + Happened(log, input, Code(rc)))
  {
    hide Pending, Greeting, Standing, Transaction, Open;
    var h := Happened(log, input, Code(rc));
    assert log + [] == log;
    if h != [] {
      assert h == [h[0]];
      PendingSnoc(log, h[0]);
      GreetingSnoc(log, h[0]);
      TransactionSnoc(log, h[0]);
    }
  }

  lemma OtherKeeps(s: Session, log: seq<Entry>, input: Input, rc: int)
    requires Inv(s, log) && s.open && WellFormedInput(input)
    requires Pending(log) || input.QuitCmd? || input.XclientCmd? || input.OtherCmd? || input.Chunk?
    ensures Inv(Step(s, input, Code(rc)), log + Happened(log, input, Code(rc)))
  {
    hide Pending, Greeting, Standing, Transaction, Open, Understood, LastProto, AfterArgs;
    var h := Happened(log, input, Code(rc));
    assert log + [] == log;
    if h != [] {
      assert h == [h[0]];
      PendingSnoc(log, h[0]);
      GreetingSnoc(log, h[0]);
      TransactionSnoc(log, h[0]);
    }
    if input.XclientCmd? {
      ArgsAre(s.stageHelo, input.args);
      LastProtoNames(input.args[..Understood(input.args)]);
    }
  }

  /** Each input with any reply keeps the session what its history says. */
  lemma StepKeeps(s: Session, log: seq<Entry>, input: Input, reply: Reply)
    requires Inv(s, log) && WellFormedInput(input)
    ensures Inv(Step(s, input, reply), log + Happened(log, input, reply))
  {
    hide Pending, Greeting, Standing, Transaction, Open, Respond;
    if !s.open {
      assert log + [] == log;
    } else if reply.Drop? {
      PendingSnoc(log, Closed);
      GreetingSnoc(log, Closed);
      TransactionSnoc(log, Closed);
    } else if Pending(log) {
      OtherKeeps(s, log, input, reply.rc);
    } else {
      match input {
        case HeloCmd(_) => GreetingKeeps(s, log, input, reply.rc);
        case EhloCmd(_, _) => GreetingKeeps(s, log, input, reply.rc);
        case RsetCmd => GreetingKeeps(s, log, input, reply.rc);
        case AuthCmd(_) => GreetingKeeps(s, log, input, reply.rc);
        case MailCmd(_, _) => PathKeeps(s, log, input, reply.rc);
        case RcptCmd(_) => PathKeeps(s, log, input, reply.rc);
        case DataCmd => PathKeeps(s, log, input, reply.rc);
        case _ => OtherKeeps(s, log, input, reply.rc);
      }
    }
  }

  predicate WellFormedRun(inputs: seq<(Input, Reply)>) {
    forall i :: 0 <= i < |inputs| ==> WellFormedInput(inputs[i].0)
  }

  lemma {:induction false} RunKeeps(inputs: seq<(Input, Reply)>)
    requires WellFormedRun(inputs)
    ensures Inv(Run(inputs), History(inputs))
  {
    if inputs != [] {
      var front := inputs[..|inputs| - 1];
      RunKeeps(front);
      StepKeeps(Run(front), History(front), inputs[|inputs| - 1].0, inputs[|inputs| - 1].1);
    }
  }

  lemma RunSnoc(inputs: seq<(Input, Reply)>, input: Input, reply: Reply)
    ensures Run(inputs + [(input, reply)]) == Step(Run(inputs), input, reply)
  {
    assert (inputs + [(input, reply)])[..|inputs|] == inputs;
  }

  // ---------- What is accepted ----------

  /** An input is a command: the connection is open, and no message content is awaited. */
  predicate TakesCommand(log: seq<Entry>, reply: Reply) {
    Open(log) && !Pending(log) && reply.Code?
  }

  /** MAIL begins a transaction iff a greeting stands, its path and size are good, and its hook does not refuse. */
  lemma MailAcceptedIff(inputs: seq<(Input, Reply)>, path: PathArg, tooBig: bool, reply: Reply)
    requires WellFormedRun(inputs)
    ensures var log, s, s' := History(inputs), Run(inputs), Run(inputs + [(MailCmd(path, tooBig), reply)]);
            if TakesCommand(log, reply) && Standing(log) != NoStage && path.Path? && !tooBig && reply.rc < 300
            then s' == s.(stage := Mail, sender := Some(path.address)) && s'.rcpts == []
            else s'.stage == Mail ==> s.stage == Mail && s'.sender == s.sender && s'.rcpts == s.rcpts
  {
    hide Run, History;
    RunKeeps(inputs);
    RunSnoc(inputs, MailCmd(path, tooBig), reply);
  }

  /** RCPT adds its address iff a transaction is open, the address is good, and the hook does not refuse it. */
  lemma RcptAcceptedIff(inputs: seq<(Input, Reply)>, path: PathArg, reply: Reply)
    requires WellFormedRun(inputs)
    ensures var log, s, s' := History(inputs), Run(inputs), Run(inputs + [(RcptCmd(path), reply)]);
            if TakesCommand(log, reply) && Transaction(log).Some? && path.Path? && path.address != "" && reply.rc < 300
            then s' == s.(stage := Rcpt, rcpts := s.rcpts + [path.address])
            else s'.rcpts == s.rcpts
  {
    hide Run, History;
    RunKeeps(inputs);
    RunSnoc(inputs, RcptCmd(path), reply);
  }

  /** DATA turns to content iff the open transaction has a recipient, and the hook answers 354 or nothing. */
  lemma DataAcceptedIff(inputs: seq<(Input, Reply)>, reply: Reply)
    requires WellFormedRun(inputs)
    ensures var log, s, s' := History(inputs), Run(inputs), Run(inputs + [(DataCmd, reply)]);
            if TakesCommand(log, reply) && Transaction(log).Some? && Transaction(log).value.1 != [] && reply.rc in {0, 354}
            then s' == s.(stage := Data) && s'.sender.Some? && Transaction(log) == Some((s'.sender.value, s'.rcpts))
            else s'.stage == s.stage
  {
    hide Run, History;
    RunKeeps(inputs);
    RunSnoc(inputs, DataCmd, reply);
  }

  /** A greeting that is not refused is the state in which MAIL is taken; a refused one is that of no greeting. */
  lemma GreetingTaken(inputs: seq<(Input, Reply)>, arg: string, reply: Reply)
    requires WellFormedRun(inputs) && TakesCommand(History(inputs), reply) && arg != ""
    ensures var s := Run(inputs);
            && Run(inputs + [(HeloCmd(arg), reply)])
               == (if reply.rc < 300 then Session(Helo, Helo, None, [], s.auth, true) else s.(stage := Accept))
            && Run(inputs + [(EhloCmd(arg, false), reply)])
               == (if reply.rc < 300 then Session(Ehlo, Ehlo, None, [], s.auth, true) else s.(stage := Accept))
  {
    hide Run, History;
    RunKeeps(inputs);
    RunSnoc(inputs, HeloCmd(arg), reply);
    RunSnoc(inputs, EhloCmd(arg, false), reply);
  }

  /** AUTH is taken once, under EHLO, for the one mechanism there is. */
  lemma AuthAcceptedIff(inputs: seq<(Input, Reply)>, plain: bool, reply: Reply)
    requires WellFormedRun(inputs)
    ensures var log, s, s' := History(inputs), Run(inputs), Run(inputs + [(AuthCmd(plain), reply)]);
            if TakesCommand(log, reply) && Standing(log) == Ehlo && AuthOk !in log && plain
            then s' == s.(auth := true, stage := Greeting(log))
            else s' == s.(open := s.open && reply.Code?)
  {
    hide Run, History;
    RunKeeps(inputs);
    RunSnoc(inputs, AuthCmd(plain), reply);
  }

  /** XCLIENT keeps the last protocol it names in front of an argument not understood; without one there is no greeting. */
  lemma XclientTaken(inputs: seq<(Input, Reply)>, args: seq<XclientArg>, reply: Reply)
    requires WellFormedRun(inputs) && TakesCommand(History(inputs), reply)
    ensures var s, s', n := Run(inputs), Run(inputs + [(XclientCmd(args), reply)]), Understood(args);
            var proto := LastProto(args[..n]);
            s' == if reply.rc >= 300 then s
                  else s.(stageHelo := if proto.Some? then proto.value else s.stageHelo,
                          stage := if Unknown in args then s.stage else Accept)
  {
    hide Run, History, AfterArgs, LastProto;
    RunKeeps(inputs);
    RunSnoc(inputs, XclientCmd(args), reply);
    ArgsAre(Run(inputs).stageHelo, args);
    assert Understood(args) == |args| <==> Unknown !in args;
  }

  /** The connection ends with a dropped reply, QUIT, or a path that could not be parsed for now, and takes nothing more. */
  lemma ConnectionEnds(inputs: seq<(Input, Reply)>, input: Input, reply: Reply)
    requires WellFormedRun(inputs) && WellFormedInput(input)
    ensures var log, s := History(inputs), Run(inputs);
            && Run(inputs + [(input, reply)]).open ==
                 (&& Open(log) && reply.Code?
                  && (!Pending(log) ==>
                        && input != QuitCmd(false)
                        && !(Standing(log) != NoStage && input.MailCmd? && input.path == BadPath(true))
                        && !(Transaction(log).Some? && input == RcptCmd(BadPath(true)))))
            && (!Open(log) ==> Run(inputs + [(input, reply)]) == s)
  {
    hide Run, History, AfterArgs;
    RunKeeps(inputs);
    RunSnoc(inputs, input, reply);
  }

  /** The end of a message, and RSET, leave no transaction and the last greeting. */
  lemma EndOfMessage(inputs: seq<(Input, Reply)>, reply: Reply)
    requires WellFormedRun(inputs) && Open(History(inputs)) && reply.Code?
    ensures var log, s := History(inputs), Run(inputs);
            var cleared := s.(stage := Greeting(log), sender := None, rcpts := []);
            && (Pending(log) ==> Run(inputs + [(Chunk(true), reply)]) == cleared && Greeting(log) in {Helo, Ehlo})
            && (Pending(log) ==> Run(inputs + [(Chunk(false), reply)]) == s.(stage := Content))
            && (!Pending(log) ==> Run(inputs + [(RsetCmd, reply)]) == cleared)
  {
    hide Run, History;
    RunKeeps(inputs);
    RunSnoc(inputs, Chunk(true), reply);
    RunSnoc(inputs, Chunk(false), reply);
    RunSnoc(inputs, RsetCmd, reply);
  }

  predicate EndsTransaction(e: Entry) {
    e.Hello? || e.NoHello? || e.Cleared? || e.Finished? || e.MailOk? || (e.Proxied? && e.complete)
  }

  /**
   Spelled out: the transaction of a history begins at the accepted MAIL at k, after
   which the recipients are those it lists, and nothing ends it.
   */
  lemma {:induction false} TransactionSince(log: seq<Entry>) returns (k: nat)
    requires Transaction(log).Some?
    ensures k < |log| && log[k] == MailOk(Transaction(log).value.0)
    ensures Recipients(log[k + 1..]) == Transaction(log).value.1
    ensures forall j :: k < j < |log| ==> !EndsTransaction(log[j])
  {
    TransactionOfNothing();
    hide Transaction, Recipients;
    var n := |log| - 1;
    var front, last := log[..n], log[n];
    assert log == front + [last];
    TransactionSnoc(front, last);
    if last.MailOk? {
      RecipientsOfNothing();
      k := n;
      assert log[n + 1..] == [];
    } else {
      k := TransactionSince(front);
      assert log[k + 1..] == front[k + 1..] + [last];
      RecipientsSnoc(front[k + 1..], last);
    }
  }

  /** The recipients accepted, in order. */
  function Recipients(log: seq<Entry>): seq<Address> {
    if log == [] then []
    else (if log[0].RcptOk? then [log[0].recipient] else []) + Recipients(log[1..])
  }

  lemma RecipientsOfNothing()
    ensures Recipients([]) == []
  {
  }

  lemma RecipientsSnoc(log: seq<Entry>, e: Entry)
    ensures Recipients(log + [e]) == Recipients(log) + if e.RcptOk? then [e.recipient] else []
  {
    if log == [] {
      assert log + [e] == [e];
    } else {
      assert (log + [e])[1..] == log[1..] + [e];
    }
  }

  /**
   In every run, the DATA that is accepted has the sender and recipients of the last
   accepted MAIL and the RCPTs accepted since, in order, with no greeting, RSET,
   completed XCLIENT or finished message in between.
   */
  lemma DataAccepted(inputs: seq<(Input, Reply)>, n: nat) returns (k: nat)
    requires WellFormedRun(inputs) && n < |inputs|
    requires Run(inputs[..n]).stage !in {Data, Content} && Run(inputs[..n + 1]).stage == Data
    ensures var log, s := History(inputs[..n]), Run(inputs[..n + 1]);
            && inputs[n].0 == DataCmd && s.sender.Some? && s.rcpts != []
            && k < |log| && log[k] == MailOk(s.sender.value) && Recipients(log[k + 1..]) == s.rcpts
            && forall j :: k < j < |log| ==> !EndsTransaction(log[j])
  {
    hide Run, History, EndsTransaction, Transaction, Recipients;
    var (input, reply) := inputs[n];
    RunKeeps(inputs[..n]);
    assert inputs[..n + 1] == inputs[..n] + [(input, reply)];
    RunSnoc(inputs[..n], input, reply);
    k := TransactionSince(History(inputs[..n]));
  }

  // ---------- The code ----------

  /** The fields of SmtpCtx that the command handlers assign. */
  class SmtpCtx {
    var stage: Stage
    var stageHelo: Stage
    var sender: Option<Address>
    var rcpts: seq<Address>
    var auth: bool
    var open: bool

    constructor ()
      ensures Snapshot() == START
    {
      stage, stageHelo, sender, rcpts, auth, open := Accept, NoStage, None, [], false, true;
    }

    function Snapshot(): Session
      reads this
    {
      Session(stage, stageHelo, sender, rcpts, auth, open)
    }

    method ClientReset()
      modifies this
      ensures Snapshot() == Reset(old(Snapshot()))
    {
      stage := stageHelo;
      rcpts := [];
      sender := None;
    }

    method DoHelo(greeting: Stage, arg: string, rc: int)
      requires greeting in {Helo, Ehlo}
      modifies this
      ensures Snapshot() == if arg == "" then old(Snapshot()) else AfterHelo(old(Snapshot()), greeting, rc)
    {
      if arg == "" {
        return;
      }
      stage := greeting;
      if HookOk(rc) {
        stageHelo := greeting;
        ClientReset();
      } else {
        stage := Accept;
      }
    }

    method DoAuth(plain: bool)
      modifies this
      ensures Snapshot() == Respond(old(Snapshot()), AuthCmd(plain), 0)
    {
      if stage != Ehlo {
        return;
      }
      if auth {
        return;
      }
      if !plain {
        return;
      }
      auth := true;
      stage := stageHelo;
    }

    method DoMail(path: PathArg, tooBig: bool, rc: int)
      modifies this
      ensures Snapshot() == AfterMail(old(Snapshot()), path, tooBig, rc)
    {
      if stage != Helo && stage != Ehlo {
        return;
      }
      match path {
        case NoColon => return;
        case NoAddress => return;
        case BadPath(temporary) =>
          sender := None;
          if temporary {
            open := false;
          }
          return;
        case Path(address) =>
          sender := Some(address);
          if tooBig {
            return;
          }
          stage := Mail;
          if !HookOk(rc) {
            stage := stageHelo;
          }
      }
    }

    method DoRcpt(path: PathArg, rc: int)
      modifies this
      ensures Snapshot() == AfterRcpt(old(Snapshot()), path, rc)
    {
      if stage != Mail && stage != Rcpt {
        return;
      }
      match path {
        case NoColon => return;
        case NoAddress => return;
        case BadPath(temporary) =>
          if temporary {
            open := false;
          }
          return;
        case Path(address) =>
          if address == "" {
            return;
          }
          rcpts := rcpts + [address];
          stage := Rcpt;
          if !HookOk(rc) {
            rcpts := rcpts[..|rcpts| - 1];
          }
      }
    }

    method DoData(rc: int)
      modifies this
      ensures Snapshot() == AfterData(old(Snapshot()), rc)
    {
      if stage != Rcpt {
        return;
      }
      if |rcpts| == 0 {
        return;
      }
      stage := Data;
      if !(rc == 0 || rc == SMTP_WAITING) {
        stage := Rcpt;
      }
    }

    method DoXclient(args: seq<XclientArg>, rc: int)
      modifies this
      ensures Snapshot() == AfterXclient(old(Snapshot()), args, rc)
    {
      if !HookOk(rc) {
        return;
      }
      var i := 0;
      assert args[0..] == args;
      while i < |args|
        invariant 0 <= i <= |args|
        invariant Snapshot() == old(Snapshot()).(stageHelo := stageHelo)
        invariant AfterArgs(old(stageHelo), args) == AfterArgs(stageHelo, args[i..])
      {
        assert args[i..][0] == args[i] && args[i..][1..] == args[i + 1..];
        match args[i] {
          case Unknown => return;
          case Applied =>
          case Proto(proto) =>
            if proto.Some? {
              stageHelo := proto.value;
            }
        }
        i := i + 1;
      }
      stage := Accept;
    }

    method DoContent(dot: bool)
      modifies this
      ensures Snapshot() == AfterChunk(old(Snapshot()), dot)
    {
      stage := Content;
      if dot {
        ClientReset();
      }
    }

    /** client_io: one line, or a chunk of the message, and what its hook answers. */
    method ClientIo(input: Input, reply: Reply)
      modifies this
      ensures Snapshot() == Step(old(Snapshot()), input, reply)
    {
      if !open {
        return;
      }
      if reply.Drop? {
        open := false;
        return;
      }
      var rc := reply.rc;
      if stage == Data || stage == Content {
        if input.Chunk? {
          DoContent(input.dot);
        }
        return;
      }
      match input {
        case HeloCmd(arg) => DoHelo(Helo, arg, rc);
        case EhloCmd(arg, piped) => if !piped { DoHelo(Ehlo, arg, rc); }
        case AuthCmd(plain) => DoAuth(plain);
        case MailCmd(path, tooBig) => DoMail(path, tooBig, rc);
        case RcptCmd(path) => DoRcpt(path, rc);
        case DataCmd => DoData(rc);
        case RsetCmd => ClientReset();
        case QuitCmd(piped) => open := piped;
        case XclientCmd(args) => DoXclient(args, rc);
        case OtherCmd =>
        case Chunk(_) =>
      }
    }
  }

  /** A whole session, input by input. */
  method Serve(inputs: seq<(Input, Reply)>) returns (s: Session)
    requires WellFormedRun(inputs)
    ensures s == Run(inputs) && Inv(s, History(inputs))
  {
    var ctx := new SmtpCtx();
    var i := 0;
    while i < |inputs|
      invariant 0 <= i <= |inputs|
      invariant ctx.Snapshot() == Run(inputs[..i])
    {
      assert inputs[..i + 1][..i] == inputs[..i];
      ctx.ClientIo(inputs[i].0, inputs[i].1);
      i := i + 1;
    }
    assert inputs[..i] == inputs;
    RunKeeps(inputs);
    s := ctx.Snapshot();
  }
}
