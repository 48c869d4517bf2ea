/** The SASL record of a connection, updated in place. */
module SaslEngine {
  import opened Sasl
  import opened Wrappers

  datatype Parsed = Accepted | Malformed

  /** Every mechanism but EXTERNAL. */
  function DefaultMechs(): set<Mech> {
    {Login, Plain, CramMd5, DigestMd5, Gssapi, Ntlm, XOAuth2, OAuthBearer}
  }

  /** The mechanism to use, with the states to go to without and with an initial response. */
  method Choose(cfg: Config, enabled: set<Mech>) returns (mech: Option<Mech>, state1: State, state2: State)
    ensures mech == Pick(cfg, enabled)
    ensures mech.Some? ==> state1 == FirstState(mech.value) && state2 == SecondState(mech.value)
  {
    mech, state1, state2 := None, Stop, Final;
    if External in enabled && cfg.passwdEmpty {
      mech, state1 := Some(External), ExternalSent;
    } else if cfg.userPasswd {
      if cfg.kerberos && Gssapi in enabled && cfg.userHasDomain {
        mech, state1, state2 := Some(Gssapi), GssapiUser, GssapiToken;
      } else if cfg.crypto && DigestMd5 in enabled {
        mech, state1 := Some(DigestMd5), DigestMd5Sent;
      } else if cfg.crypto && CramMd5 in enabled {
        mech, state1 := Some(CramMd5), CramMd5Sent;
      } else if cfg.ntlm && Ntlm in enabled {
        mech, state1, state2 := Some(Ntlm), NtlmType1, NtlmType2Msg;
      } else if OAuthBearer in enabled && cfg.bearer {
        mech, state1, state2 := Some(OAuthBearer), OAuth2, OAuth2Resp;
      } else if XOAuth2 in enabled && cfg.bearer {
        mech, state1 := Some(XOAuth2), OAuth2;
      } else if Plain in enabled {
        mech, state1 := Some(Plain), PlainSent;
      } else if Login in enabled {
        mech, state1, state2 := Some(Login), LoginUser, LoginPasswd;
      }
    }
  }

  class SaslData {
    var state: State
    var authmechs: set<Mech>
    var prefmech: set<Mech>
    var authused: set<Mech>
    var resetprefs: bool
    var mutualAuth: bool
    var forceIr: bool

    ghost function Contents(): Dialogue
      reads this
    {
      Dialogue(state, authmechs, prefmech, authused, mutualAuth, forceIr)
    }

    constructor ()
      ensures Contents() == Dialogue(Stop, {}, DefaultMechs(), {}, false, false) && resetprefs
    {
      state, authmechs, prefmech, authused := Stop, {}, DefaultMechs(), {};
      resetprefs, mutualAuth, forceIr := true, false, false;
    }

    /** The first option replaces the default preferences, the later ones add to them. */
    method ParseUrlAuthOption(value: string) returns (r: Parsed)
      modifies `resetprefs, `prefmech
      ensures r == Accepted <==> value == "*" || exists m :: value == Name(m)
      ensures value == "*" ==> prefmech == DefaultMechs()
      ensures forall m :: value == Name(m) ==> prefmech == (if old(resetprefs) then {} else old(prefmech)) + {m}
      ensures r == Malformed && value != "" ==> prefmech == if old(resetprefs) then {} else old(prefmech)
      ensures resetprefs == (old(resetprefs) && value == "")
      ensures value == "" ==> prefmech == old(prefmech)
    {
      if |value| == 0 {
        forall m ensures value != Name(m) { assert |Name(m)| > 0; }
        return Malformed;
      }
      if resetprefs {
        resetprefs := false;
        prefmech := {};
      }
      if value == "*" {
        forall m ensures value != Name(m) { assert |Name(m)| > 1; }
        prefmech := DefaultMechs();
        return Accepted;
      }
      var mech, len := DecodeMech(value);
      forall m | value == Name(m) ensures mech == Some(m) { assert Names(value, m); }
      if mech.Some? && len == |value| {
        assert Names(value, mech.value);
        assert value == Name(mech.value);
        prefmech := prefmech + {mech.value};
        return Accepted;
      }
      return Malformed;
    }

    method Start(cfg: Config, force: bool, env: Env) returns (result: Code, progress: Progress)
      modifies this
      ensures Step(Contents(), result, progress) == Sasl.Start(cfg, old(Contents()), force, env)
      ensures resetprefs == old(resetprefs)
    {
      hide Pick, FirstState, SecondState, Sasl.Launch;
      forceIr := force;
      authused := {};
      var mech, state1, state2 := Choose(cfg, authmechs * prefmech);
      if mech.None? { return OK, Idle; }
      authused := {mech.value};
      if mech.value == Gssapi { mutualAuth := false; }
      result, progress := Launch(cfg, mech.value, state1, state2, env);
    }

    /** Builds the initial response where it is wanted, drops it where it is too long, and sends the command. */
    method Launch(cfg: Config, mech: Mech, state1: State, state2: State, env: Env)
        returns (result: Code, progress: Progress)
      requires state1 == FirstState(mech) && state2 == SecondState(mech)
      modifies `state
      ensures Step(Contents(), result, progress) == Sasl.Launch(cfg, old(Contents()), mech, env)
    {
      hide FirstState, SecondState, Name, HasInitialResponse, Outcome;
      ghost var d := Contents();
      var early := HasInitialResponse(mech) && (forceIr || cfg.saslIr);
      result, progress := if early then Outcome(env.built) else OK, Idle;
      var resp := early && env.built.Message?;
      if result == OK {
        if resp && cfg.maxirlen != 0 && |Name(mech)| + env.built.len > cfg.maxirlen { resp := false; }
        result := env.sendauth;
        if result == OK {
          progress := InProgress;
          state := if resp then state2 else state1;
          assert Contents() == d.(state := state);
        }
      }
    }

    method Continue(cfg: Config, code: int, env: Env) returns (result: Code, progress: Progress)
      modifies this
      ensures Step(Contents(), result, progress) == Sasl.Continue(cfg, old(Contents()), code, env)
      ensures resetprefs == old(resetprefs)
    {
      result, progress := OK, InProgress;
      var newstate := Final;
      var built := NoMessage;
      if state == Final {
        if code != cfg.finalcode { result := LoginDenied; }
        progress, state := Done, Stop;
        return;
      }
      if state != Cancel && state != OAuth2Resp && code != cfg.contcode {
        progress, state := Done, Stop;
        return LoginDenied, Done;
      }
      if state == Stop { return OK, Done; }
      if state == Cancel {
        authmechs := Xor(authmechs, authused);
        result, progress := Start(cfg, forceIr, env);
        newstate := state;
      } else if state == OAuth2Resp && code == cfg.finalcode {
        state := Stop;
        return OK, Done;
      } else if state == OAuth2Resp && code != cfg.contcode {
        state := Stop;
        return LoginDenied, Done;
      } else if !Supported(cfg, state) {
        result := UnsupportedProtocol;
      } else {
        built := match state case OAuth2Resp => Message(4) case DigestMd5Resp => Message(0) case _ => env.built;
        result := Outcome(built);
        match state {
          case LoginUser => newstate := LoginPasswd;
          case DigestMd5Sent => newstate := DigestMd5Resp;
          case NtlmType1 => newstate := NtlmType2Msg;
          case GssapiUser => newstate := GssapiToken;
          case GssapiToken => if mutualAuth { newstate := GssapiNoData; }
          case OAuth2 => if authused == {OAuthBearer} { newstate := OAuth2Resp; }
          case _ =>
        }
      }
      match result {
        case BadContentEncoding =>
          result, newstate := env.sendcont, Cancel;
        case OK =>
          if built.Message? { result := env.sendcont; }
        case _ =>
          newstate, progress := Stop, Done;
      }
      state := newstate;
    }
  }
}
