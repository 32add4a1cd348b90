/** The two effects of the Game component (src/game/Game.tsx) that keep the
    game in the URL's "s" search parameter, as a state machine.

    The write effect runs after every change of the game state: unless a
    restore is under way, a running game writes its token (the external
    form, stateToExternalForm) when it differs from the previous one, and
    any other status clears the parameters. The read effect runs after every
    change of the search parameters: a non-empty token that is not the
    current state's own is decoded and the game is reset from it, with the
    restoring flag raised until a timer lowers it.

    The external form (JSON and gzip of the state) is a parameter: `token`
    is the current state's form, `parses` says whether ungzip and JSON.parse
    accept the bytes a token decodes to, and those bytes are handed to the
    caller, which parses them into the fragment of game-reset. */
module UrlSync {
  import opened Wrappers
  import opened GameTypes
  import Codec

  /** What the effects keep between runs: the "s" search parameter (None when
      absent), `previousState.current` and `restoringState`. */
  datatype Sync = Sync(param: Option<string>, previous: string, restoring: bool)

  /** The two calls of setSearchParams: `{ s: token }` and `{ }`. */
  datatype UrlWrite = SetToken(token: string) | ClearParams

  /** The "s" parameter after a write. */
  function ParamAfter(w: UrlWrite): Option<string> {
    match w
    case SetToken(t) => Some(t)
    case ClearParams => None
  }

  /** The write effect, for a state with the given status whose external form is `token`:
      the new effect state and the write it makes, if any. */
  function WriteEffect(sy: Sync, status: Status, token: string): (r: (Sync, Option<UrlWrite>))
    ensures r.0.restoring == sy.restoring
    ensures r.1.None? ==> r.0.param == sy.param
    ensures r.1.Some? ==> r.0.param == ParamAfter(r.1.value)
    ensures sy.restoring ==> r == (sy, None)
    ensures !sy.restoring && status == Running ==>
              r.0.previous == token && (r.1.Some? <==> token != sy.previous)
    ensures !sy.restoring && status != Running ==> r.0.previous == sy.previous && r.1 == Some(ClearParams)
  {
    if sy.restoring then
      (sy, None)
    else if status == Running then
      if token != sy.previous then
        (sy.(param := Some(token), previous := token), Some(SetToken(token)))
      else
        (sy.(previous := token), None)
    else
      (sy.(param := None), Some(ClearParams))
  }

  /** What the read effect does with the token in the URL. */
  datatype ReadOutcome =
    | NoRestore
    | Restore(bytes: seq<Codec.byte>)       // game-reset is dispatched with the state these bytes hold
    | DecodeFailed(error: string)           // urlsafe2data throws: the effect throws, the error escapes to React
    | ParseFailed(bytes: seq<Codec.byte>)   // ungzip or JSON.parse throws on these bytes: the error escapes to React

  /** The "s" parameter holds a non-empty token other than the current state's own. */
  predicate Foreign(sy: Sync, token: string) {
    sy.param.Some? && sy.param.value != "" && sy.param.value != token
  }

  /** The read effect, when the current state's external form is `token` and
      `parses` tells which decoded byte strings ungzip and JSON.parse accept.
      Decoding and parsing come before the flag is raised and nothing
      catches what they throw, so on a failure the effect throws before it
      has changed the state it keeps; what React then does with the error
      is outside the model. */
  function ReadEffect(sy: Sync, token: string, parses: seq<Codec.byte> -> bool): (r: (Sync, ReadOutcome))
    ensures r.1.NoRestore? <==> !Foreign(sy, token)
    ensures r.1.DecodeFailed? <==> Foreign(sy, token) && Codec.UrlSafeDecode(sy.param.value).Failure?
    ensures r.1.ParseFailed? <==>
              Foreign(sy, token) && Codec.UrlSafeDecode(sy.param.value).Success?
              && !parses(Codec.UrlSafeDecode(sy.param.value).value)
    ensures r.1.ParseFailed? ==> Codec.UrlSafeDecode(sy.param.value) == Success(r.1.bytes)
    ensures r.1.Restore? ==>
              r.0 == sy.(restoring := true) && Codec.UrlSafeDecode(sy.param.value) == Success(r.1.bytes)
              && parses(r.1.bytes)
    ensures !r.1.Restore? ==> r.0 == sy
  {
    match sy.param
    case Some(s) =>
      if s != "" && s != token then
        match Codec.UrlSafeDecode(s)
        case Success(bytes) =>
          if parses(bytes) then (sy.(restoring := true), Restore(bytes)) else (sy, ParseFailed(bytes))
        case Failure(e) => (sy, DecodeFailed(e))
      else
        (sy, NoRestore)
    case None => (sy, NoRestore)
  }

  /** The timer the read effect starts lowers the restoring flag. */
  function TimerFires(sy: Sync): (r: Sync)
    ensures !r.restoring && r.param == sy.param && r.previous == sy.previous
  {
    sy.(restoring := false)
  }

  /** A running game whose state has not changed writes nothing the second
      time: the previous token suppresses duplicate history entries. */
  lemma WriteDeduplicates(sy: Sync, token: string)
    requires !sy.restoring
    ensures var s1 := WriteEffect(sy, Running, token).0;
            WriteEffect(s1, Running, token) == (s1, None)
  {
  }

  /** The write effect never makes the read effect restore: a written token
      is the current state's own, and cleared parameters hold no token. */
  lemma WriteCausesNoRestore(sy: Sync, status: Status, token: string, parses: seq<Codec.byte> -> bool)
    ensures var (s1, w) := WriteEffect(sy, status, token);
            w.Some? ==> ReadEffect(s1, token, parses) == (s1, NoRestore)
  {
  }

  /** While a restore is under way the write effect does nothing at all. */
  lemma RestoreSuppressesWrites(sy: Sync, current: string, parses: seq<Codec.byte> -> bool, status: Status, token: string)
    ensures var (s1, out) := ReadEffect(sy, current, parses);
            out.Restore? ==> WriteEffect(s1, status, token) == (s1, None)
  {
  }

  /** Once the timer has fired, a running game writes again exactly when its
      token differs from the last one written before the restore. */
  lemma WritesResumeAfterTimer(sy: Sync, token: string)
    requires sy.restoring
    ensures var (s1, w) := WriteEffect(TimerFires(sy), Running, token);
            (w.Some? <==> token != sy.previous) && s1.previous == token
  {
  }

  /** The token a running game writes for the bytes of its external form
      decodes back to those bytes: reading a URL the game wrote restores the
      game it was written from. */
  lemma WrittenTokenDecodes(sy: Sync, bytes: seq<Codec.byte>)
    requires !sy.restoring
    ensures var (s1, w) := WriteEffect(sy, Running, Codec.Data2UrlSafe(bytes));
            w.Some? ==> s1.param.Some? && Codec.UrlSafeDecode(s1.param.value) == Success(bytes)
  {
    Codec.RoundTrip(bytes);
  }

  /** A URL written by another copy of the game restores that game here:
      the read effect hands back exactly the bytes the token was made from,
      unless the token is the current state's own. */
  lemma ForeignTokenRestores(sy: Sync, bytes: seq<Codec.byte>, token: string, parses: seq<Codec.byte> -> bool)
    requires sy.param == Some(Codec.Data2UrlSafe(bytes))
    requires Codec.Data2UrlSafe(bytes) != "" && Codec.Data2UrlSafe(bytes) != token
    requires parses(bytes)
    ensures ReadEffect(sy, token, parses) == (sy.(restoring := true), Restore(bytes))
  {
    Codec.RoundTrip(bytes);
  }

  /** A well-formed token whose bytes are not a gzipped state makes the
      effect throw before the flag is raised: no game-reset is dispatched and
      the effect state is as it was when the error escapes. */
  lemma ForeignGarbageThrows(sy: Sync, bytes: seq<Codec.byte>, token: string, parses: seq<Codec.byte> -> bool)
    requires sy.param == Some(Codec.Data2UrlSafe(bytes))
    requires Codec.Data2UrlSafe(bytes) != "" && Codec.Data2UrlSafe(bytes) != token
    requires !parses(bytes)
    ensures ReadEffect(sy, token, parses) == (sy, ParseFailed(bytes))
  {
    Codec.RoundTrip(bytes);
  }
}
