/** The RPC signature parser of src/index.ts: `getRpcType` and `parseRpcLine`, with the regular
    expression of line 90 replaced by the matcher of `RpcPattern`. */
module RpcParser {
  import opened Wrappers
  import opened Text
  import opened ChangeCase
  import opened RpcPattern

  /** How streamed request and response types are rendered. */
  datatype StreamBehaviour = Strip | Generic | Native

  /** `getRpcType`: the type text of one side of an rpc. */
  function RpcType(typeName: string, isStream: bool, behaviour: StreamBehaviour): (r: string)
    ensures !isStream || behaviour == Strip ==> r == typeName
    ensures isStream && behaviour == Native ==> r == "Stream"
    ensures isStream && behaviour == Generic ==> r == "Stream<" + typeName + ">"
  {
    if !isStream || behaviour == Strip then typeName
    else if behaviour == Native then "Stream"
    else "Stream<" + typeName + ">"
  }



  /** A match and the index where it begins. */
  datatype RpcMatch = RpcMatch(start: nat, shape: RpcShape)

  /** The anchored match at every index of the line, the end included. */
  function Matches(line: string): (ms: seq<Option<RpcShape>>)
    ensures |ms| == |line| + 1 && forall q :: 0 <= q <= |line| ==> ms[q] == MatchAt(line, q)
  {
    seq(|line| + 1, q requires 0 <= q <= |line| => MatchAt(line, q))
  }

  /** The first index at or after `p` that holds a value. */
  function FirstSome<T>(ms: seq<Option<T>>, p: nat): (r: Option<nat>)
    requires p <= |ms|
    ensures r.Some? ==> p <= r.value < |ms| && ms[r.value].Some? && forall q :: p <= q < r.value ==> ms[q].None?
    ensures r.None? ==> forall q :: p <= q < |ms| ==> ms[q].None?
    decreases |ms| - p
  {
    if p == |ms| then None
    else if ms[p].Some? then Some(p)
    else FirstSome(ms, p + 1)
  }

  /** The unanchored search: the match that begins leftmost at or after `p`. */
  function MatchFrom(line: string, p: nat): (m: Option<RpcMatch>)
    requires p <= |line|
    ensures m.Some? ==> p <= m.value.start <= |line| && MatchAt(line, m.value.start) == Some(m.value.shape)
    ensures m.Some? ==> forall q :: p <= q < m.value.start ==> MatchAt(line, q).None?
    ensures m.None? ==> forall q :: p <= q <= |line| ==> MatchAt(line, q).None?
  {
    var ms := Matches(line);
    match FirstSome(ms, p)
    case None => None
    case Some(i) => Some(RpcMatch(i, ms[i].value))
  }

  // ------------------------------------------------------------------ rendering

  /** What the named groups of a match carry: the RPC descriptor. */
  datatype RpcSignature = RpcSignature(
    methodName: string, requestStream: bool, requestType: string,
    responseStream: bool, responseType: string)

  function Signature(sh: RpcShape): RpcSignature {
    RpcSignature(sh.methodName, sh.request.stream.Some?, sh.request.typeName,
                 sh.response.stream.Some?, sh.response.typeName)
  }

  /** The parameter name: the camel-cased request type, with a `Stream` suffix when the request
      is streamed and streams are not stripped. */
  function RequestVariable(sig: RpcSignature, behaviour: StreamBehaviour, casing: CaseConverter): string {
    if sig.requestStream && behaviour != Strip then casing.camel(sig.requestType) + "Stream"
    else casing.camel(sig.requestType)
  }

  function RenderRpc(sig: RpcSignature, behaviour: StreamBehaviour, casing: CaseConverter): string {
    casing.camel(sig.methodName) + " (" + RequestVariable(sig, behaviour, casing) + ": "
    + RpcType(sig.requestType, sig.requestStream, behaviour) + "): "
    + RpcType(sig.responseType, sig.responseStream, behaviour)
  }

  /** `parseRpcLine`: the method line for the leftmost match, or the line unchanged. */
  function ParseRpcLine(line: string, behaviour: StreamBehaviour, casing: CaseConverter): string {
    match MatchFrom(line, 0)
    case None => line
    case Some(m) => RenderRpc(Signature(m.shape), behaviour, casing)
  }

  // ------------------------------------------------------------------ the search finds the leftmost spelling

  /** No well-formed shape is spelled where the matcher fails. */
  lemma NoMatchNoSpelling(line: string, q: nat, sh: RpcShape)
    requires q <= |line| && MatchAt(line, q).None? && WellFormed(sh)
    ensures !SpelledAt(line, q, sh)
  {
    if SpelledAt(line, q, sh) {
      MatchAtAny(line, q, sh);
    }
  }

  /** What the search returns is a well-formed, canonical spelling, and no well-formed spelling
      begins before it. */
  lemma MatchFromLeftmost(line: string)
    requires MatchFrom(line, 0).Some?
    ensures var m := MatchFrom(line, 0).value;
      WellFormed(m.shape) && Canonical(m.shape) && SpelledAt(line, m.start, m.shape)
    ensures forall q: nat, sh :: q < MatchFrom(line, 0).value.start && WellFormed(sh) ==> !SpelledAt(line, q, sh)
  {
    var m := MatchFrom(line, 0).value;
    MatchAtSound(line, m.start);
    forall q: nat, sh | q < m.start && WellFormed(sh) ensures !SpelledAt(line, q, sh) {
      NoMatchNoSpelling(line, q, sh);
    }
  }

  /** The search fails exactly when the line spells no well-formed shape anywhere. */
  lemma MatchFromNone(line: string)
    ensures MatchFrom(line, 0).None? <==> forall q: nat, sh :: WellFormed(sh) ==> !SpelledAt(line, q, sh)
  {
    if MatchFrom(line, 0).None? {
      forall q: nat, sh | WellFormed(sh) ensures !SpelledAt(line, q, sh) {
        if SpelledAt(line, q, sh) {
          MatchAtAny(line, q, sh);
        }
      }
    } else {
      MatchFromLeftmost(line);
    }
  }

  // ------------------------------------------------------------------ what parseRpcLine returns

  /** A line that spells no well-formed signature is returned unchanged. */
  lemma ParseRpcLineUnchanged(line: string, behaviour: StreamBehaviour, casing: CaseConverter)
    requires forall q: nat, sh :: WellFormed(sh) ==> !SpelledAt(line, q, sh)
    ensures ParseRpcLine(line, behaviour, casing) == line
  {
    MatchFromNone(line);
  }

  /** A line whose leftmost well-formed spelling is `sh` at `p` is rendered from `sh`. */
  lemma ParseRpcLineRenders(line: string, behaviour: StreamBehaviour, casing: CaseConverter, p: nat, sh: RpcShape)
    requires WellFormed(sh) && Canonical(sh) && SpelledAt(line, p, sh)
    requires forall q: nat, other :: q < p && WellFormed(other) ==> !SpelledAt(line, q, other)
    ensures ParseRpcLine(line, behaviour, casing) == RenderRpc(Signature(sh), behaviour, casing)
  {
    MatchFromNone(line);
    var m := MatchFrom(line, 0).value;
    MatchFromLeftmost(line);
    MatchAtSpelled(line, p, sh);
    assert m.start == p;
  }

  /** The parameter carries the `Stream` suffix exactly when the request is streamed and streams
      are not stripped. */
  lemma RequestVariableSuffix(sig: RpcSignature, behaviour: StreamBehaviour, casing: CaseConverter)
    ensures RequestVariable(sig, behaviour, casing) == casing.camel(sig.requestType) + "Stream"
      <==> sig.requestStream && behaviour != Strip
    ensures !(sig.requestStream && behaviour != Strip) ==> RequestVariable(sig, behaviour, casing) == casing.camel(sig.requestType)
  {
    var v := casing.camel(sig.requestType);
    assert |v + "Stream"| == |v| + 6;
  }
}
