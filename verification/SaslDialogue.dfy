/** How long a dialogue is in which nothing fails. */
module SaslDialogue {
  import opened Ascii
  import opened Sasl
  import opened Wrappers

  /** A message is built and sent, and so is the command. */
  predicate Good(env: Env) { env.built.Message? && env.sendauth == OK && env.sendcont == OK }

  /** Messages the client sends with each mechanism, the initial response included. */
  function Messages(m: Mech): nat {
    match m
    case Plain => 1
    case Login => 2          // user name, password
    case External => 1
    case CramMd5 => 1
    case DigestMd5 => 2      // response, empty acknowledgement
    case Ntlm => 2           // type 1, type 3
    case Gssapi => 2         // token, security message
    case XOAuth2 => 1
    case OAuthBearer => 1    // and one more for a failure that comes as a continuation
  }

  /** The first message goes out with the command: it is wanted, the mechanism is no answer to a challenge, and it
      fits. */
  predicate SentWithCommand(cfg: Config, m: Mech, forceIr: bool, env: Env)
    requires env.built.Message?
  {
    && (forceIr || cfg.saslIr) && m != CramMd5 && m != DigestMd5
    && (cfg.maxirlen == 0 || |Name(m)| + env.built.len <= cfg.maxirlen)
  }

  /** The server asks for more n times, and then accepts. */
  ghost predicate AsksThenAccepts(cfg: Config, rounds: seq<(int, Env)>, n: nat) {
    && |rounds| == n + 1
    && (forall i :: 0 <= i < n ==> rounds[i].0 == cfg.contcode)
    && rounds[n].0 == cfg.finalcode
    && forall i :: 0 <= i <= n ==> Good(rounds[i].1)
  }

  /** Messages still to be sent from a state on. */
  function ToSend(s: State): nat {
    match s
    case LoginUser | DigestMd5Sent | NtlmType1 | GssapiUser => 2
    case Final | OAuth2Resp | Stop | Cancel => 0
    case _ => 1
  }

  ghost predicate At(cfg: Config, d: Dialogue, m: Mech) {
    && d.authused == {m} && Owns(m, d.state) && d.state != Cancel && d.state != GssapiNoData
    && (m == Gssapi ==> !d.mutualAuth) && Supported(cfg, d.state)
  }

  /** One answer while more is asked for. */
  lemma AskedAgain(cfg: Config, d: Dialogue, m: Mech, env: Env)
    requires At(cfg, d, m) && Good(env) && cfg.contcode != cfg.finalcode
    ensures var s := Continue(cfg, d, cfg.contcode, env);
            if d.state == Final then s.progress == Done && s.result == LoginDenied
            else
              && s.progress == InProgress && s.result == OK && At(cfg, s.d, m)
              && (d.state == OAuth2Resp ==> s.d.state == Final)
              && (d.state != OAuth2Resp ==> ToSend(s.d.state) == ToSend(d.state) - 1)
              && (s.d.state == OAuth2Resp <==> m == OAuthBearer && d.state == OAuth2)
  {
  }

  lemma Accepted(cfg: Config, d: Dialogue, m: Mech, env: Env)
    requires At(cfg, d, m) && cfg.contcode != cfg.finalcode
    ensures var s := Continue(cfg, d, cfg.finalcode, env);
            && s.progress == Done && (s.result == OK <==> d.state == Final || d.state == OAuth2Resp)
            && (s.result != OK ==> s.result == LoginDenied)
  {
  }

  lemma {:induction false} LengthFrom(cfg: Config, s: Step, m: Mech, rounds: seq<(int, Env)>, n: nat)
    requires At(cfg, s.d, m) && s.progress == InProgress && s.result == OK && AsksThenAccepts(cfg, rounds, n)
    requires cfg.contcode != cfg.finalcode
    ensures var end, k := Run(cfg, s, rounds), ToSend(s.d.state);
            && end.progress == Done && end.result in {OK, LoginDenied}
            && (end.result == OK <==> n == k || (m == OAuthBearer && s.d.state != Final && n == k + 1))
    decreases n
  {
    hide Continue, At, Good;
    RunStep(cfg, s, rounds);
    if n == 0 {
      Accepted(cfg, s.d, m, rounds[0].1);
      AtBearer(cfg, s.d, m);
      RunStep(cfg, Continue(cfg, s.d, rounds[0].0, rounds[0].1), rounds[1..]);
    } else {
      AskedAgain(cfg, s.d, m, rounds[0].1);
      AtBearer(cfg, s.d, m);
      var s' := Continue(cfg, s.d, rounds[0].0, rounds[0].1);
      if s.d.state == Final {
        RunStep(cfg, s', rounds[1..]);
      } else {
        LengthFrom(cfg, s', m, rounds[1..], n - 1);
      }
    }
  }

  lemma AtBearer(cfg: Config, d: Dialogue, m: Mech)
    requires At(cfg, d, m)
    ensures ToSend(d.state) == 0 ==> d.state == Final || (d.state == OAuth2Resp && m == OAuthBearer)
    ensures d.state == OAuth2Resp ==> m == OAuthBearer
    ensures m == OAuthBearer ==> d.state in {OAuth2, OAuth2Resp, Final}
    ensures d.state == Final ==> ToSend(d.state) == 0
  {
  }

  lemma StartsAt(cfg: Config, d: Dialogue, forceIr: bool, env: Env, m: Mech)
    requires Pick(cfg, Enabled(d)) == Some(m) && Good(env)
    ensures var s := Start(cfg, d, forceIr, env);
            && s.progress == InProgress && s.result == OK && At(cfg, s.d, m) && s.d.authused == {m}
            && ToSend(s.d.state) == Messages(m) - (if SentWithCommand(cfg, m, forceIr, env) then 1 else 0)
            && (m == OAuthBearer ==> s.d.state != Final)
  {
  }

  /** When nothing fails, the login succeeds exactly when the server accepts after it has asked for all messages of the
      mechanism that are not yet sent; OAUTHBEARER may be asked for one more. Asked for fewer or more, it is denied. */
  lemma DialogueLength(cfg: Config, d: Dialogue, forceIr: bool, env: Env, m: Mech, rounds: seq<(int, Env)>, n: nat)
    requires Pick(cfg, Enabled(d)) == Some(m) && Good(env) && AsksThenAccepts(cfg, rounds, n)
    requires cfg.contcode != cfg.finalcode
    ensures var end := Run(cfg, Start(cfg, d, forceIr, env), rounds);
            var left := Messages(m) - (if SentWithCommand(cfg, m, forceIr, env) then 1 else 0);
            && end.progress == Done && end.result in {OK, LoginDenied}
            && (end.result == OK <==> n == left || (m == OAuthBearer && n == left + 1))
  {
    hide Start, Run, At, AsksThenAccepts, Messages;
    StartsAt(cfg, d, forceIr, env, m);
    LengthFrom(cfg, Start(cfg, d, forceIr, env), m, rounds, n);
  }

  /** With nothing to choose from nothing is sent, and no mechanism is in use. */
  lemma NothingToStart(cfg: Config, d: Dialogue, forceIr: bool, env: Env)
    requires Pick(cfg, Enabled(d)) == None
    ensures Start(cfg, d, forceIr, env) == Step(d.(forceIr := forceIr, authused := {}), OK, Idle)
  {
    hide Pick;
  }

  // ---- Falling back

  /** Whether the initial response is wanted is settled at the start, for all mechanisms. */
  lemma {:induction false} ForceIrIsKept(cfg: Config, s: Step, rounds: seq<(int, Env)>)
    ensures Run(cfg, s, rounds).d.forceIr == s.d.forceIr
    decreases |rounds|
  {
    hide Continue;
    if rounds != [] && s.progress == InProgress && s.result == OK {
      ContinueKeepsForceIr(cfg, s.d, rounds[0].0, rounds[0].1);
      ForceIrIsKept(cfg, Continue(cfg, s.d, rounds[0].0, rounds[0].1), rounds[1..]);
    }
  }

  lemma ContinueKeepsForceIr(cfg: Config, d: Dialogue, code: int, env: Env)
    ensures Continue(cfg, d, code, env).d.forceIr == d.forceIr
  {
    hide Pick;
  }

  lemma StartSetsForceIr(cfg: Config, d: Dialogue, forceIr: bool, env: Env)
    ensures Start(cfg, d, forceIr, env).d.forceIr == forceIr
  {
    hide Pick;
  }

  /** After a cancellation the next mechanism runs its course as it would have from the start. */
  lemma FallbackLength(cfg: Config, d: Dialogue, m: Mech, code: int, env: Env, rounds: seq<(int, Env)>, n: nat)
    requires Running(d) && d.state == Cancel && Pick(cfg, Enabled(d) - d.authused) == Some(m)
    requires Good(env) && AsksThenAccepts(cfg, rounds, n) && cfg.contcode != cfg.finalcode
    ensures var end := Run(cfg, Step(d, OK, InProgress), [(code, env)] + rounds);
            var left := Messages(m) - (if SentWithCommand(cfg, m, d.forceIr, env) then 1 else 0);
            && end.progress == Done && end.result in {OK, LoginDenied}
            && (end.result == OK <==> n == left || (m == OAuthBearer && n == left + 1))
  {
    hide Start, Run, At, AsksThenAccepts, Messages, Running, Pick, Good;
    var was := TheMech(d);
    XorRemoves(d.authmechs, was);
    var d' := d.(authmechs := d.authmechs - {was});
    assert Enabled(d') == Enabled(d) - {was};
    StartsAt(cfg, d', d.forceIr, env, m);
    LengthFrom(cfg, Start(cfg, d', d.forceIr, env), m, rounds, n);
    RunStep(cfg, Step(d, OK, InProgress), [(code, env)] + rounds);
    assert ([(code, env)] + rounds)[1..] == rounds;
  }

  // ---- Failures

  /** The answers that the client composes without looking at the server's challenge. */
  predicate Fixed(s: State) { s == DigestMd5Resp || s == OAuth2Resp }

  /** Asked for more: a message that cannot be encoded cancels the mechanism, another failure ends the dialogue, and
      what sending reports is passed on. */
  lemma WhatFailuresDo(cfg: Config, d: Dialogue, m: Mech, env: Env)
    requires At(cfg, d, m) && d.state != Final && cfg.contcode != cfg.finalcode
    ensures var s := Continue(cfg, d, cfg.contcode, env);
            && (!Fixed(d.state) && env.built == BadEncoding ==>
                s == Step(d.(state := Cancel), env.sendcont, InProgress))
            && (!Fixed(d.state) && env.built == BuildFailed ==> s == Step(d.(state := Stop), OtherError, Done))
            && (!Fixed(d.state) && env.built == NoMessage ==> s.progress == InProgress && s.result == OK)
            && (Fixed(d.state) || env.built.Message? ==> s.progress == InProgress && s.result == env.sendcont)
  {
  }

  /** Any other answer, where one is asked for, is a refusal. */
  lemma OtherCodesRefuse(cfg: Config, d: Dialogue, m: Mech, code: int, env: Env)
    requires At(cfg, d, m) && code != cfg.contcode && code != cfg.finalcode
    ensures Continue(cfg, d, code, env) == Step(d.(state := Stop), LoginDenied, Done)
  {
  }

  /** A fallback whose first message cannot be encoded is cancelled in turn; when the command cannot be sent the
      dialogue ends. */
  lemma FallbackFails(cfg: Config, d: Dialogue, m: Mech, code: int, env: Env)
    requires Running(d) && d.state == Cancel && Pick(cfg, Enabled(d) - d.authused) == Some(m)
    ensures var s := Continue(cfg, d, code, env);
            && s.d.authused == {m} && s.d.authmechs == d.authmechs - d.authused
            && (NotEncodable(cfg, m, d.forceIr, env) ==> s.d.state == Cancel && s.result == env.sendcont)
            && (env.built.Message? && env.sendauth !in {OK, BadContentEncoding} ==>
                  s.d.state == Stop && s.progress == Done && s.result == env.sendauth)
  {
    hide Pick;
    var was := TheMech(d);
    XorRemoves(d.authmechs, was);
    assert Enabled(d.(authmechs := d.authmechs - {was})) == Enabled(d) - {was};
  }

  /** What is over has stopped. */
  lemma DoneMeansStopped(cfg: Config, d: Dialogue, code: int, env: Env)
    requires Running(d)
    ensures var s := Continue(cfg, d, code, env); s.progress == Done ==> s.d.state == Stop
  {
    hide Pick;
    NeverStopped(d);
  }

  // ---- States that are not reached

  predicate BuiltIn(cfg: Config, m: Mech) {
    match m
    case CramMd5 | DigestMd5 => cfg.crypto
    case Ntlm => cfg.ntlm
    case Gssapi => cfg.kerberos
    case _ => true
  }

  /** A mechanism in use is built in, and GSSAPI does without mutual authentication. */
  ghost predicate Reachable(cfg: Config, d: Dialogue) {
    && d.state != GssapiNoData
    && exists m :: d.authused == {m} && m in Enabled(d) && Owns(m, d.state) && BuiltIn(cfg, m)
                   && (m == Gssapi ==> !d.mutualAuth)
  }

  lemma ReachableMech(cfg: Config, d: Dialogue) returns (m: Mech)
    requires Reachable(cfg, d)
    ensures d.authused == {m} && m in Enabled(d) && Owns(m, d.state) && BuiltIn(cfg, m)
    ensures m == Gssapi ==> !d.mutualAuth
    ensures Running(d)
  {
    m :| d.authused == {m} && m in Enabled(d) && Owns(m, d.state) && BuiltIn(cfg, m) && (m == Gssapi ==> !d.mutualAuth);
  }

  lemma StartIsReachable(cfg: Config, d: Dialogue, forceIr: bool, env: Env)
    requires env.sendauth != UnsupportedProtocol
    ensures var s := Start(cfg, d, forceIr, env);
            s.result != UnsupportedProtocol && (s.progress == InProgress ==> Reachable(cfg, s.d))
  {
    var s := Start(cfg, d, forceIr, env);
    if s.progress == InProgress {
      var m := Pick(cfg, Enabled(d)).value;
      assert s.d.authused == {m} && m in Enabled(s.d) && Owns(m, s.d.state) && BuiltIn(cfg, m);
    }
  }

  lemma AnswerIsReachable(cfg: Config, d: Dialogue, built: Built, env: Env)
    requires Reachable(cfg, d) && d.state !in {Stop, Cancel, Final} && env.sendcont != UnsupportedProtocol
    ensures var s := Answer(cfg, d, built, env);
            s.result != UnsupportedProtocol && (s.progress == InProgress ==> Reachable(cfg, s.d))
  {
    hide Rank;
    var m := ReachableMech(cfg, d);
    NextDescends(d, m);
    var s := Answer(cfg, d, built, env);
    if s.progress == InProgress { assert s.d.authused == {m} && m in Enabled(s.d) && Owns(m, s.d.state); }
  }

  lemma ContinueIsReachable(cfg: Config, d: Dialogue, code: int, env: Env)
    requires Reachable(cfg, d) && env.sendauth != UnsupportedProtocol && env.sendcont != UnsupportedProtocol
    ensures var s := Continue(cfg, d, code, env);
            s.result != UnsupportedProtocol && (s.progress == InProgress ==> Reachable(cfg, s.d))
  {
    hide Start, Answer, Reachable, Pick;
    var m := ReachableMech(cfg, d);
    NeverStopped(d);
    if d.state == Cancel {
      FallbackIsReachable(cfg, d, env, m);
    } else if d.state != Final {
      AnswerIsReachable(cfg, d, env.built, env);
      AnswerIsReachable(cfg, d, Message(4), env);
      AnswerIsReachable(cfg, d, Message(0), env);
    }
  }

  lemma FallbackIsReachable(cfg: Config, d: Dialogue, env: Env, m: Mech)
    requires env.sendauth != UnsupportedProtocol && env.sendcont != UnsupportedProtocol && d.authused == {m}
    ensures var s := Fallback(cfg, d, env);
            s.result != UnsupportedProtocol && (s.progress == InProgress ==> Reachable(cfg, s.d))
  {
    hide Reachable, Pick;
    var d' := d.(authmechs := Xor(d.authmechs, d.authused));
    StartIsReachable(cfg, d', d.forceIr, env);
    StartFailsIdle(cfg, d', d.forceIr, env);
  }

  lemma StartFailsIdle(cfg: Config, d: Dialogue, forceIr: bool, env: Env)
    ensures var s := Start(cfg, d, forceIr, env); s.result != OK ==> s.progress == Idle
  {
    hide Pick;
  }

  /** No dialogue, over any number of calls, comes to a state that the build has no code for, or to the third step of
      GSSAPI, which is for mutual authentication. */
  lemma {:induction false} NeverUnsupported(cfg: Config, s: Step, rounds: seq<(int, Env)>)
    requires s.result != UnsupportedProtocol && (s.progress == InProgress ==> Reachable(cfg, s.d))
    requires forall round :: round in rounds ==>
               round.1.sendauth != UnsupportedProtocol && round.1.sendcont != UnsupportedProtocol
    ensures var end := Run(cfg, s, rounds);
            end.result != UnsupportedProtocol && (end.progress == InProgress ==> end.d.state != GssapiNoData)
    decreases |rounds|
  {
    hide Continue;
    if rounds != [] && s.progress == InProgress && s.result == OK {
      assert rounds[0] in rounds;
      ContinueIsReachable(cfg, s.d, rounds[0].0, rounds[0].1);
      NeverUnsupported(cfg, Continue(cfg, s.d, rounds[0].0, rounds[0].1), rounds[1..]);
    }
  }

  // ---- Names

  /** A name ends at the end of the text, or before a character that cannot be in a name. */
  lemma NameEnds(m: Mech, rest: string)
    ensures Names(Name(m) + rest, m)
       <==> rest == "" || (rest[0] !in CAPITALS && rest[0] !in DIGITS && rest[0] !in "-_")
  {
    hide Name;
    if rest != "" { ClassesListed(rest[0]); }
  }
}
