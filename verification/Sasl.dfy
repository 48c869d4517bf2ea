/** The client's side of a SASL dialogue: choosing a mechanism, running it, cancelling it, falling back. */
module Sasl {
  import opened Ascii
  import opened Wrappers

  datatype Mech = Login | Plain | CramMd5 | DigestMd5 | Gssapi | External | Ntlm | XOAuth2 | OAuthBearer

  datatype State =
    | Stop | PlainSent | LoginUser | LoginPasswd | ExternalSent | CramMd5Sent | DigestMd5Sent | DigestMd5Resp
    | NtlmType1 | NtlmType2Msg | GssapiUser | GssapiToken | GssapiNoData | OAuth2 | OAuth2Resp | Cancel | Final

  datatype Progress = Idle | InProgress | Done

  datatype Code = OK | LoginDenied | BadContentEncoding | UnsupportedProtocol | OtherError

  /** What is built in, what the user has supplied, and the protocol's reply codes. */
  datatype Config = Config(
    kerberos: bool, crypto: bool, ntlm: bool,
    userPasswd: bool, passwdEmpty: bool, userHasDomain: bool, bearer: bool, saslIr: bool,
    maxirlen: nat, contcode: int, finalcode: int)

  /** The outcome of building a message. */
  datatype Built = Message(len: nat) | NoMessage | BadEncoding | BuildFailed

  /** What happens during one call: the message built, and the results of sending. */
  datatype Env = Env(built: Built, sendauth: Code, sendcont: Code)

  /** Flag words are sets of mechanisms. */
  datatype Dialogue = Dialogue(
    state: State, authmechs: set<Mech>, prefmech: set<Mech>, authused: set<Mech>,
    mutualAuth: bool, forceIr: bool)

  datatype Step = Step(d: Dialogue, result: Code, progress: Progress)

  function Xor(a: set<Mech>, b: set<Mech>): set<Mech> { (a - b) + (b - a) }

  function Enabled(d: Dialogue): set<Mech> { d.authmechs * d.prefmech }

  function Name(m: Mech): string {
    match m
    case Login => "LOGIN"
    case Plain => "PLAIN"
    case CramMd5 => "CRAM-MD5"
    case DigestMd5 => "DIGEST-MD5"
    case Gssapi => "GSSAPI"
    case External => "EXTERNAL"
    case Ntlm => "NTLM"
    case XOAuth2 => "XOAUTH2"
    case OAuthBearer => "OAUTHBEARER"
  }

  // ---- Choosing a mechanism

  function Pick(cfg: Config, enabled: set<Mech>): Option<Mech> {
    if External in enabled && cfg.passwdEmpty then Some(External)
    else if !cfg.userPasswd then None
    else if cfg.kerberos && Gssapi in enabled && cfg.userHasDomain then Some(Gssapi)
    else if cfg.crypto && DigestMd5 in enabled then Some(DigestMd5)
    else if cfg.crypto && CramMd5 in enabled then Some(CramMd5)
    else if cfg.ntlm && Ntlm in enabled then Some(Ntlm)
    else if OAuthBearer in enabled && cfg.bearer then Some(OAuthBearer)
    else if XOAuth2 in enabled && cfg.bearer then Some(XOAuth2)
    else if Plain in enabled then Some(Plain)
    else if Login in enabled then Some(Login)
    else None
  }

  function FirstState(m: Mech): State {
    match m
    case Login => LoginUser
    case Plain => PlainSent
    case CramMd5 => CramMd5Sent
    case DigestMd5 => DigestMd5Sent
    case Gssapi => GssapiUser
    case External => ExternalSent
    case Ntlm => NtlmType1
    case XOAuth2 => OAuth2
    case OAuthBearer => OAuth2
  }

  /** The state after the initial response went out with the command. */
  function SecondState(m: Mech): State {
    match m
    case Login => LoginPasswd
    case Gssapi => GssapiToken
    case Ntlm => NtlmType2Msg
    case OAuthBearer => OAuth2Resp
    case _ => Final
  }

  predicate HasInitialResponse(m: Mech) { m != DigestMd5 && m != CramMd5 }

  function Outcome(b: Built): Code {
    match b
    case Message(_) => OK
    case NoMessage => OK
    case BadEncoding => BadContentEncoding
    case BuildFailed => OtherError
  }

  /** Sends the command for a mechanism, with its initial response where that is wanted and fits. */
  function Launch(cfg: Config, d: Dialogue, m: Mech, env: Env): Step {
    var early := HasInitialResponse(m) && (d.forceIr || cfg.saslIr);
    if early && Outcome(env.built) != OK then Step(d, Outcome(env.built), Idle)
    else
      var kept := early && env.built.Message? && !(cfg.maxirlen != 0 && |Name(m)| + env.built.len > cfg.maxirlen);
      if env.sendauth != OK then Step(d, env.sendauth, Idle)
      else Step(d.(state := if kept then SecondState(m) else FirstState(m)), OK, InProgress)
  }

  function Start(cfg: Config, d: Dialogue, forceIr: bool, env: Env): Step {
    var d := d.(forceIr := forceIr, authused := {});
    var pick := Pick(cfg, Enabled(d));
    if pick.None? then Step(d, OK, Idle)
    else
      var m := pick.value;
      Launch(cfg, d.(authused := {m}, mutualAuth := d.mutualAuth && m != Gssapi), m, env)
  }

  // ---- Continuing a dialogue

  /** Whether the build has code for the state at all. */
  predicate Supported(cfg: Config, s: State) {
    match s
    case CramMd5Sent | DigestMd5Sent | DigestMd5Resp => cfg.crypto
    case NtlmType1 | NtlmType2Msg => cfg.ntlm
    case GssapiUser | GssapiToken | GssapiNoData => cfg.kerberos
    case _ => true
  }

  /** The state to go to when the message for this one was built. */
  function Next(d: Dialogue): State {
    match d.state
    case LoginUser => LoginPasswd
    case DigestMd5Sent => DigestMd5Resp
    case NtlmType1 => NtlmType2Msg
    case GssapiUser => GssapiToken
    case GssapiToken => if d.mutualAuth then GssapiNoData else Final
    case OAuth2 => if d.authused == {OAuthBearer} then OAuth2Resp else Final
    case _ => Final
  }

  /** A message was built, or failed to be. */
  function Answer(cfg: Config, d: Dialogue, built: Built, env: Env): Step {
    if !Supported(cfg, d.state) then Step(d.(state := Stop), UnsupportedProtocol, Done)
    else match Outcome(built)
      case OK => Step(d.(state := Next(d)), if built.Message? then env.sendcont else OK, InProgress)
      case BadContentEncoding => Step(d.(state := Cancel), env.sendcont, InProgress)
      case other => Step(d.(state := Stop), other, Done)
  }

  /** The offending mechanism is dropped and another one started. */
  function Fallback(cfg: Config, d: Dialogue, env: Env): Step {
    var s := Start(cfg, d.(authmechs := Xor(d.authmechs, d.authused)), d.forceIr, env);
    match s.result
    case OK => s
    case BadContentEncoding => Step(s.d.(state := Cancel), env.sendcont, s.progress)
    case other => Step(s.d.(state := Stop), other, Done)
  }

  function Continue(cfg: Config, d: Dialogue, code: int, env: Env): Step {
    if d.state == Final then
      Step(d.(state := Stop), if code != cfg.finalcode then LoginDenied else OK, Done)
    else if d.state != Cancel && d.state != OAuth2Resp && code != cfg.contcode then
      Step(d.(state := Stop), LoginDenied, Done)
    else match d.state
      case Stop => Step(d, OK, Done)
      case Cancel => Fallback(cfg, d, env)
      case OAuth2Resp =>
        if code == cfg.finalcode then Step(d.(state := Stop), OK, Done)
        else if code == cfg.contcode then Answer(cfg, d, Message(4), env)
        else Step(d.(state := Stop), LoginDenied, Done)
      case DigestMd5Resp => Answer(cfg, d, Message(0), env)
      case _ => Answer(cfg, d, env.built, env)
  }

  // ---- Termination

  /** How many more calls a mechanism can take from a state on, its cancellation included. */
  function Rank(s: State): nat {
    match s
    case Stop => 0
    case Final => 1
    case Cancel => 1
    case GssapiUser => 4
    case LoginUser | DigestMd5Sent | NtlmType1 | OAuth2 | GssapiToken => 3
    case _ => 2
  }

  /** The states a mechanism passes through. */
  predicate Owns(m: Mech, s: State) {
    match s
    case Stop => false
    case Final | Cancel => true
    case PlainSent => m == Plain
    case LoginUser | LoginPasswd => m == Login
    case ExternalSent => m == External
    case CramMd5Sent => m == CramMd5
    case DigestMd5Sent | DigestMd5Resp => m == DigestMd5
    case NtlmType1 | NtlmType2Msg => m == Ntlm
    case GssapiUser | GssapiToken | GssapiNoData => m == Gssapi
    case OAuth2 => m == XOAuth2 || m == OAuthBearer
    case OAuth2Resp => m == OAuthBearer
  }

  /** A dialogue under way: one mechanism is in use, it is accepted and preferred, and the state is one of its own. */
  ghost predicate Running(d: Dialogue) {
    exists m :: d.authused == {m} && m in Enabled(d) && Owns(m, d.state)
  }

  /** Calls left at the most: four for each mechanism not yet dropped. */
  function Weight(d: Dialogue): int { 4 * (|Enabled(d)| - 1) + Rank(d.state) }

  lemma StartRuns(cfg: Config, d: Dialogue, forceIr: bool, env: Env)
    ensures var s := Start(cfg, d, forceIr, env);
            && s.d.authmechs == d.authmechs && s.d.prefmech == d.prefmech
            && (s.progress == InProgress ==> s.result == OK && Running(s.d) && Weight(s.d) <= 4 * |Enabled(d)|)
            && (s.progress == InProgress ==>
                Pick(cfg, Enabled(d)).Some? && s.d.authused == {Pick(cfg, Enabled(d)).value})
  {
    var s := Start(cfg, d, forceIr, env);
    if s.progress == InProgress {
      var m := Pick(cfg, Enabled(d)).value;
      assert s.d.authused == {m} && m in Enabled(s.d) && Owns(m, s.d.state);
    }
  }

  /** Dropping the mechanism in use by exclusive or removes it: it was in the accepted set. */
  lemma XorRemoves(a: set<Mech>, m: Mech)
    requires m in a
    ensures Xor(a, {m}) == a - {m}
  {
  }

  lemma FallbackDescends(cfg: Config, d: Dialogue, env: Env)
    requires Running(d) && d.state == Cancel
    ensures var s, pick := Fallback(cfg, d, env), Pick(cfg, Enabled(d) - d.authused);
            && s.d.prefmech == d.prefmech && s.d.authmechs == d.authmechs - d.authused
            && (s.progress == InProgress ==> Running(s.d) && Weight(s.d) < Weight(d))
            && (s.progress == InProgress ==> pick.Some? && s.d.authused == {pick.value})
  {
    hide Start, Running, Pick;
    var m := TheMech(d);
    XorRemoves(d.authmechs, m);
    var d' := d.(authmechs := d.authmechs - {m});
    assert Enabled(d') == Enabled(d) - {m};
    StartRuns(cfg, d', d.forceIr, env);
  }

  lemma TheMech(d: Dialogue) returns (m: Mech)
    requires Running(d)
    ensures d.authused == {m} && m in Enabled(d) && Owns(m, d.state)
  {
    m :| d.authused == {m} && m in Enabled(d) && Owns(m, d.state);
  }

  /** The next state, and cancellation, belong to the same mechanism and are nearer to the end. */
  lemma NextDescends(d: Dialogue, m: Mech)
    requires d.authused == {m} && Owns(m, d.state) && d.state !in {Stop, Cancel, Final}
    ensures Owns(m, Next(d)) && Rank(Next(d)) < Rank(d.state)
    ensures Owns(m, Cancel) && Rank(Cancel) < Rank(d.state)
  {
  }

  lemma AnswerDescends(cfg: Config, d: Dialogue, built: Built, env: Env)
    requires Running(d) && d.state !in {Stop, Cancel, Final}
    ensures var s := Answer(cfg, d, built, env);
            && s.d.prefmech == d.prefmech && s.d.authmechs == d.authmechs && s.d.authused == d.authused
            && (s.progress == InProgress ==> Running(s.d) && Rank(s.d.state) < Rank(d.state))
  {
    hide Rank, Owns, Next, Supported;
    var m := TheMech(d);
    NextDescends(d, m);
    var s := Answer(cfg, d, built, env);
    if s.progress == InProgress { assert s.d.authused == {m} && m in Enabled(s.d) && Owns(m, s.d.state); }
  }

  /** Every call brings the end nearer, whatever the server says and whatever fails. */
  lemma ContinueDescends(cfg: Config, d: Dialogue, code: int, env: Env)
    requires Running(d)
    ensures var s, pick := Continue(cfg, d, code, env), Pick(cfg, Enabled(d) - d.authused);
            && s.d.prefmech == d.prefmech
                && s.d.authmechs == (if d.state == Cancel then d.authmechs - d.authused else d.authmechs)
            && (s.progress == InProgress ==> Running(s.d) && Weight(s.d) < Weight(d))
            && (s.progress == InProgress && d.state == Cancel ==> pick.Some? && s.d.authused == {pick.value})
            && (s.progress == InProgress && d.state != Cancel ==> s.d.authused == d.authused)
  {
    hide Answer, Fallback, Rank, Owns, Pick;
    if d.state == Cancel {
      FallbackDescends(cfg, d, env);
    } else if d.state != Final && d.state != Stop {
      AnswerDescends(cfg, d, env.built, env);
      AnswerDescends(cfg, d, Message(4), env);
      AnswerDescends(cfg, d, Message(0), env);
    } else {
      var m := TheMech(d);
      assert d.state != Stop by { NeverStopped(d); }
    }
  }

  lemma NeverStopped(d: Dialogue)
    requires Running(d)
    ensures d.state != Stop
  {
  }

  /** Further calls for as long as the dialogue is in progress and nothing failed. */
  function Run(cfg: Config, s: Step, rounds: seq<(int, Env)>): Step
    decreases |rounds|
  {
    if rounds == [] || s.progress != InProgress || s.result != OK then s
    else Run(cfg, Continue(cfg, s.d, rounds[0].0, rounds[0].1), rounds[1..])
  }

  lemma {:induction false} RunEnds(cfg: Config, s: Step, rounds: seq<(int, Env)>)
    requires s.progress == InProgress ==> Running(s.d) && |rounds| >= Weight(s.d)
    ensures var end := Run(cfg, s, rounds); end.progress != InProgress || end.result != OK
    decreases |rounds|
  {
    hide Continue;
    if s.progress == InProgress && s.result == OK {
      ContinueDescends(cfg, s.d, rounds[0].0, rounds[0].1);
      RunEnds(cfg, Continue(cfg, s.d, rounds[0].0, rounds[0].1), rounds[1..]);
    }
  }

  /** Every dialogue is over after at most four calls for each enabled mechanism. */
  lemma DialogueEnds(cfg: Config, d: Dialogue, forceIr: bool, env: Env, rounds: seq<(int, Env)>)
    requires |rounds| >= 4 * |Enabled(d)|
    ensures var end := Run(cfg, Start(cfg, d, forceIr, env), rounds); end.progress != InProgress || end.result != OK
  {
    hide Start, Run;
    StartRuns(cfg, d, forceIr, env);
    RunEnds(cfg, Start(cfg, d, forceIr, env), rounds);
  }

  /** The login counts as done only on the server's final code, in a state that waits for it. */
  lemma DoneMeansFinalCode(cfg: Config, d: Dialogue, code: int, env: Env)
    requires Running(d)
    ensures var s := Continue(cfg, d, code, env);
            s.progress == Done && s.result == OK
            <==> (d.state == Final || d.state == OAuth2Resp) && code == cfg.finalcode
  {
  }

  // ---- The order of mechanisms

  /** By decreasing order of security. */
  const ORDER := [External, Gssapi, DigestMd5, CramMd5, Ntlm, OAuthBearer, XOAuth2, Plain, Login]

  predicate Usable(cfg: Config, m: Mech) {
    match m
    case External => cfg.passwdEmpty
    case Gssapi => cfg.userPasswd && cfg.kerberos && cfg.userHasDomain
    case DigestMd5 | CramMd5 => cfg.userPasswd && cfg.crypto
    case Ntlm => cfg.userPasswd && cfg.ntlm
    case OAuthBearer | XOAuth2 => cfg.userPasswd && cfg.bearer
    case Plain | Login => cfg.userPasswd
  }

  /** The usable mechanisms of a set, from the i-th in order on. */
  function Ranked(cfg: Config, accepted: set<Mech>, i: nat): (r: seq<Mech>)
    requires i <= |ORDER|
    ensures forall m :: m in r <==> m in ORDER[i..] && m in accepted && Usable(cfg, m)
    decreases |ORDER| - i
  {
    if i == |ORDER| then []
    else
      var rest := Ranked(cfg, accepted, i + 1);
      assert ORDER[i..] == [ORDER[i]] + ORDER[i + 1..];
      if ORDER[i] in accepted && Usable(cfg, ORDER[i]) then [ORDER[i]] + rest else rest
  }

  function FirstFrom(cfg: Config, accepted: set<Mech>, i: nat): Option<Mech>
    requires i <= |ORDER|
    decreases |ORDER| - i
  {
    if i == |ORDER| then None
    else if ORDER[i] in accepted && Usable(cfg, ORDER[i]) then Some(ORDER[i])
    else FirstFrom(cfg, accepted, i + 1)
  }

  lemma {:induction false} FirstIsHead(cfg: Config, accepted: set<Mech>, i: nat)
    requires i <= |ORDER|
    ensures var ranked := Ranked(cfg, accepted, i);
            FirstFrom(cfg, accepted, i) == if ranked == [] then None else Some(ranked[0])
    decreases |ORDER| - i
  {
    if i < |ORDER| { FirstIsHead(cfg, accepted, i + 1); }
  }

  lemma PickIsFirst(cfg: Config, accepted: set<Mech>)
    ensures Pick(cfg, accepted) == FirstFrom(cfg, accepted, 0)
  {
  }

  /** The chain of tests picks the head of the ranking. */
  lemma PickIsHead(cfg: Config, accepted: set<Mech>)
    ensures var ranked := Ranked(cfg, accepted, 0);
            Pick(cfg, accepted) == if ranked == [] then None else Some(ranked[0])
  {
    hide Pick, FirstFrom, Ranked;
    PickIsFirst(cfg, accepted);
    FirstIsHead(cfg, accepted, 0);
  }

  lemma {:induction false} RankedWithout(cfg: Config, accepted: set<Mech>, i: nat, m: Mech)
    requires i <= |ORDER| && m !in ORDER[i..]
    ensures Ranked(cfg, accepted - {m}, i) == Ranked(cfg, accepted, i)
    decreases |ORDER| - i
  {
    hide Usable;
    if i < |ORDER| {
      assert ORDER[i..] == [ORDER[i]] + ORDER[i + 1..];
      RankedWithout(cfg, accepted, i + 1, m);
    }
  }

  lemma NoneTwice(i: nat)
    requires i < |ORDER|
    ensures ORDER[i] !in ORDER[i + 1..]
  {
    assert forall j, k :: 0 <= j < k < |ORDER| ==> ORDER[j] != ORDER[k];
  }

  lemma {:induction false} RankedDrops(cfg: Config, accepted: set<Mech>, i: nat)
    requires i <= |ORDER| && Ranked(cfg, accepted, i) != []
    ensures var ranked := Ranked(cfg, accepted, i); Ranked(cfg, accepted - {ranked[0]}, i) == ranked[1..]
    decreases |ORDER| - i
  {
    hide Usable;
    NoneTwice(i);
    if ORDER[i] in accepted && Usable(cfg, ORDER[i]) {
      RankedWithout(cfg, accepted, i + 1, ORDER[i]);
    } else {
      RankedDrops(cfg, accepted, i + 1);
    }
  }

  /** The mechanism that a call picks, if it starts another one. */
  function Fallen(cfg: Config, d: Dialogue): seq<Mech> {
    var pick := Pick(cfg, Xor(d.authmechs, d.authused) * d.prefmech);
    if d.state == Cancel && pick.Some? then [pick.value] else []
  }

  /** The mechanisms picked over a run, in order. */
  function Picked(cfg: Config, s: Step, rounds: seq<(int, Env)>): seq<Mech>
    decreases |rounds|
  {
    if rounds == [] || s.progress != InProgress || s.result != OK then []
    else Fallen(cfg, s.d) + Picked(cfg, Continue(cfg, s.d, rounds[0].0, rounds[0].1), rounds[1..])
  }

  /** What is in use is the first of the ranked mechanisms; the later ones are picked in that order. */
  lemma {:induction false} RunPicksInOrder(cfg: Config, s: Step, rounds: seq<(int, Env)>)
    requires s.progress == InProgress ==>
               var ranked := Ranked(cfg, Enabled(s.d), 0); Running(s.d) && ranked != [] && s.d.authused == {ranked[0]}
    ensures var ranked := Ranked(cfg, Enabled(s.d), 0);
            ranked != [] ==> Picked(cfg, s, rounds) <= ranked[1..]
    ensures s.progress != InProgress ==> Picked(cfg, s, rounds) == []
    decreases |rounds|
  {
    hide Continue, Pick, Ranked, Running;
    if rounds != [] && s.progress == InProgress && s.result == OK {
      var ranked := Ranked(cfg, Enabled(s.d), 0);
      var s' := Continue(cfg, s.d, rounds[0].0, rounds[0].1);
      ContinueKeepsRanking(cfg, s.d, rounds[0].0, rounds[0].1);
      RunPicksInOrder(cfg, s', rounds[1..]);
    }
  }

  lemma ContinueKeepsRanking(cfg: Config, d: Dialogue, code: int, env: Env)
    requires Running(d)
    requires var ranked := Ranked(cfg, Enabled(d), 0); ranked != [] && d.authused == {ranked[0]}
    ensures var ranked, s := Ranked(cfg, Enabled(d), 0), Continue(cfg, d, code, env);
            var later := Ranked(cfg, Enabled(s.d), 0);
            && (s.progress == InProgress ==> Running(s.d) && later != [] && s.d.authused == {later[0]})
            && (d.state == Cancel ==> later == ranked[1..] && Fallen(cfg, d) == if later == [] then [] else [later[0]])
            && (d.state != Cancel ==> later == ranked && Fallen(cfg, d) == [])
  {
    hide Pick, Ranked, Start, Continue, Running, Weight;
    var ranked := Ranked(cfg, Enabled(d), 0);
    ContinueDescends(cfg, d, code, env);
    assert ranked[0] in ranked;
    if d.state == Cancel {
      XorRemoves(d.authmechs, ranked[0]);
      var d' := d.(authmechs := d.authmechs - {ranked[0]});
      assert Enabled(d') == Enabled(d) - {ranked[0]};
      RankedDrops(cfg, Enabled(d), 0);
      PickIsHead(cfg, Enabled(d'));
    }
  }

  ghost predicate NoRepeats(ms: seq<Mech>) { forall m, n :: 0 <= m < n < |ms| ==> ms[m] != ms[n] }

  lemma PrependNew(m: Mech, ms: seq<Mech>)
    requires m !in ms && NoRepeats(ms)
    ensures NoRepeats([m] + ms)
  {
  }

  lemma {:induction false} RankedHasNoRepeats(cfg: Config, accepted: set<Mech>, i: nat)
    requires i <= |ORDER|
    ensures NoRepeats(Ranked(cfg, accepted, i))
    decreases |ORDER| - i
  {
    hide Usable, NoRepeats;
    if i == |ORDER| {
      assert NoRepeats([]) by { NoneRepeats(); }
    } else {
      RankedHasNoRepeats(cfg, accepted, i + 1);
      NoneTwice(i);
      PrependNew(ORDER[i], Ranked(cfg, accepted, i + 1));
    }
  }

  lemma NoneRepeats()
    ensures NoRepeats([])
  {
  }

  /** The mechanisms of a whole dialogue. */
  function Tried(cfg: Config, d: Dialogue, forceIr: bool, env: Env, rounds: seq<(int, Env)>): seq<Mech> {
    var pick := Pick(cfg, Enabled(d));
    if pick.None? then [] else [pick.value] + Picked(cfg, Start(cfg, d, forceIr, env), rounds)
  }

  /** Over a whole dialogue the mechanisms are tried by decreasing order of security, each at most once, and no
      usable one is passed over. */
  lemma MechanismsInOrder(cfg: Config, d: Dialogue, forceIr: bool, env: Env, rounds: seq<(int, Env)>)
    ensures var tried := Tried(cfg, d, forceIr, env, rounds);
            && tried <= Ranked(cfg, Enabled(d), 0)
            && NoRepeats(tried)
            && (tried == [] <==> forall m :: m in Enabled(d) ==> !Usable(cfg, m))
  {
    hide Pick, Ranked, Picked, Usable;
    var ranked, s := Ranked(cfg, Enabled(d), 0), Start(cfg, d, forceIr, env);
    PickIsHead(cfg, Enabled(d));
    StartRuns(cfg, d, forceIr, env);
    RunPicksInOrder(cfg, s, rounds);
    RankedHasNoRepeats(cfg, Enabled(d), 0);
    assert ORDER[0..] == ORDER;
    forall m: Mech ensures m in ORDER { InOrder(m); }
    assert ranked != [] ==> ranked[0] in ranked;
  }

  lemma InOrder(m: Mech)
    ensures m in ORDER
  {
    assert ORDER[0] == External && ORDER[1] == Gssapi && ORDER[2] == DigestMd5 && ORDER[3] == CramMd5
        && ORDER[4] == Ntlm
      && ORDER[5] == OAuthBearer && ORDER[6] == XOAuth2 && ORDER[7] == Plain && ORDER[8] == Login;
  }

  /** Whether starting a mechanism ends in an encoding error. */
  predicate NotEncodable(cfg: Config, m: Mech, forceIr: bool, env: Env) {
    if HasInitialResponse(m) && (forceIr || cfg.saslIr) && Outcome(env.built) != OK
    then env.built == BadEncoding
    else env.sendauth == BadContentEncoding
  }

  /** A fallback reports "nothing to try" exactly when nothing is left, or when the next mechanism met an
      encoding error as it was started: that one is cancelled at once, and those after it are not tried. */
  lemma GivesUpExactly(cfg: Config, d: Dialogue, code: int, env: Env)
    requires Running(d) && d.state == Cancel
    ensures var s, pick := Continue(cfg, d, code, env), Pick(cfg, Enabled(d) - d.authused);
            s.progress == Idle && s.result == OK <==>
              pick.None? || (env.sendcont == OK && NotEncodable(cfg, pick.value, d.forceIr, env))
  {
    hide Pick;
    var m := TheMech(d);
    XorRemoves(d.authmechs, m);
    assert Enabled(d.(authmechs := d.authmechs - {m})) == Enabled(d) - {m};
  }

  /** DIGEST-MD5 fails to encode its answer, PLAIN its initial response, and LOGIN is left untried. */
  lemma LoginIsLeftUntried(cfg: Config)
    requires cfg.userPasswd && cfg.crypto && cfg.saslIr && !cfg.passwdEmpty
    ensures var all := {DigestMd5, Plain, Login};
            var d := Dialogue(Stop, all, all, {}, false, false);
            var sent, bad := Env(NoMessage, OK, OK), Env(BadEncoding, OK, OK);
            var end := Run(cfg, Start(cfg, d, false, sent), [(cfg.contcode, bad), (cfg.contcode, bad)]);
            && end.progress == Idle && end.result == OK
            && end.d.authmechs == {Plain, Login} && end.d.authused == {Plain}
            && Usable(cfg, Login)
  {
    hide Run;
    var all := {DigestMd5, Plain, Login};
    var d := Dialogue(Stop, all, all, {}, false, false);
    var sent, bad := Env(NoMessage, OK, OK), Env(BadEncoding, OK, OK);
    var round := (cfg.contcode, bad);
    assert all * all == all && all * all - {DigestMd5} == {Plain, Login};
    var s0 := Start(cfg, d, false, sent);
    assert s0 == Step(d.(state := DigestMd5Sent, authused := {DigestMd5}), OK, InProgress);
    var s1 := Continue(cfg, s0.d, cfg.contcode, bad);
    assert s1 == Step(s0.d.(state := Cancel), OK, InProgress);
    assert Xor(all, {DigestMd5}) == {Plain, Login} && {Plain, Login} * all == {Plain, Login};
    var s2 := Continue(cfg, s1.d, cfg.contcode, bad);
    assert [round, round][1..] == [round];
    RunStep(cfg, s0, [round, round]);
    RunStep(cfg, s1, [round]);
    RunStep(cfg, s2, []);
  }

  lemma RunStep(cfg: Config, s: Step, rounds: seq<(int, Env)>)
    ensures Run(cfg, s, rounds) ==
              if rounds == [] || s.progress != InProgress || s.result != OK then s
              else Run(cfg, Continue(cfg, s.d, rounds[0].0, rounds[0].1), rounds[1..])
  {
  }

  // ---- Mechanism names

  /** The characters of a mechanism name (section 3.1 of RFC 4422). */
  predicate NameChar(c: char) { IsUpper(c) || IsDigit(c) || c == '-' || c == '_' }

  /** A word begins with the name of the mechanism, and the name ends there. */
  predicate Names(s: string, m: Mech) {
    Name(m) <= s && (|s| == |Name(m)| || !NameChar(s[|Name(m)|]))
  }

  const TABLE := [Login, Plain, CramMd5, DigestMd5, Gssapi, External, Ntlm, XOAuth2, OAuthBearer]

  lemma OneNameFits(s: string, m: Mech, n: Mech)
    requires Name(m) <= s && Name(n) <= s
    ensures m == n
  {
    assert Name(m)[0] == s[0] == Name(n)[0];
  }

  lemma InTable(m: Mech)
    ensures exists k :: 0 <= k < |TABLE| && TABLE[k] == m
  {
    assert TABLE[0] == Login && TABLE[1] == Plain && TABLE[2] == CramMd5 && TABLE[3] == DigestMd5 && TABLE[4] == Gssapi
      && TABLE[5] == External && TABLE[6] == Ntlm && TABLE[7] == XOAuth2 && TABLE[8] == OAuthBearer;
  }

  /** The first table entry that matches is the only one. */
  method DecodeMech(s: string) returns (m: Option<Mech>, len: nat)
    ensures forall x :: Names(s, x) <==> m == Some(x)
    ensures m.Some? ==> len == |Name(m.value)|
  {
    hide Name, NameChar;
    len := 0;
    for i := 0 to |TABLE|
      invariant forall k :: 0 <= k < i ==> !Names(s, TABLE[k])
    {
      var name := Name(TABLE[i]);
      if |s| >= |name| && s[..|name|] == name {
        len := |name|;
        if |s| == |name| || !NameChar(s[|name|]) {
          forall x | Names(s, x) ensures x == TABLE[i] { OneNameFits(s, x, TABLE[i]); }
          return Some(TABLE[i]), len;
        }
      }
    }
    forall x ensures !Names(s, x) { InTable(x); }
    m := None;
  }
}
