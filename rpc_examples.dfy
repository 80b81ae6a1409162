/** The example of tests/rpc-parser.test.ts, worked through the model of `parseRpcLine`. */
module RpcExamples {
  import opened Wrappers
  import opened Text
  import opened ChangeCase
  import opened RpcPattern
  import opened RpcParser

  /** The shape the line of tests/rpc-parser.test.ts spells. */
  const ListFeaturesShape := RpcShape("rpc ", "ListFeatures", Side(None, false, "Rectangle"),
    Returns(true, "returns", true), Side(Some("stream"), true, "Feature"), true)

  lemma ListFeaturesShapeWellFormed(sh: RpcShape)
    requires sh == ListFeaturesShape
    ensures WellFormed(sh) && Canonical(sh)
  {
    assert EqualsCI(sh.rpcKeyword, "rpc ");
    assert EqualsCI(sh.returnsPart.keyword, "returns");
    assert EqualsCI(sh.response.stream.value, "stream");
    assert !EqualsCI(sh.request.typeName[..6], "stream") by {
      assert LowerAscii(sh.request.typeName[0]) == 'r';
    }
    assert CanonicalSide(sh.request);
    assert CanonicalSide(sh.response);
    assert '(' !in sh.methodName;
    assert WellFormedSide(sh.request);
    assert WellFormedSide(sh.response);
  }

  lemma ListFeaturesShapeSpells(sh: RpcShape)
    requires sh == ListFeaturesShape
    ensures Spell(sh) == "rpc ListFeatures(Rectangle) returns (stream Feature) {}"
  {
    assert SpellHead(sh) == "rpc ListFeatures(";
    assert SpellFromResponse(sh) == "stream" + " " + "Feature" + ")" + " " + "{}";
    assert SpellFromReturns(sh) == " " + "returns" + " " + "(" + SpellFromResponse(sh);
    assert SpellFromRequest(sh) == "" + "" + "Rectangle" + ")" + SpellFromReturns(sh);
    ListFeaturesLineText();
  }

  // The concatenations the example lemmas rely on.

  lemma ListFeaturesLineText()
    ensures "rpc ListFeatures(" + ("" + "" + "Rectangle" + ")" + (" " + "returns" + " " + "(" + ("stream" + " " + "Feature" + ")" + " " + "{}")))
      == "rpc ListFeatures(Rectangle) returns (stream Feature) {}"
  {
  }

  lemma ListFeaturesGenericText()
    ensures "listFeatures" + " (" + "rectangle" + ": " + "Rectangle" + "): " + "Stream<" + "Feature" + ">"
      == "listFeatures (rectangle: Rectangle): Stream<Feature>"
  {
  }

  lemma ListFeaturesNativeText()
    ensures "listFeatures" + " (" + "rectangle" + ": " + "Rectangle" + "): " + "Stream"
      == "listFeatures (rectangle: Rectangle): Stream"
  {
  }

  lemma ListFeaturesStripText()
    ensures "listFeatures" + " (" + "rectangle" + ": " + "Rectangle" + "): " + "Feature"
      == "listFeatures (rectangle: Rectangle): Feature"
  {
  }

  /** The method line rendered from the signature of `ListFeaturesShape`. */
  lemma ListFeaturesSignature(sig: RpcSignature, behaviour: StreamBehaviour, casing: CaseConverter)
    requires sig == RpcSignature("ListFeatures", false, "Rectangle", true, "Feature")
    requires casing.camel("ListFeatures") == "listFeatures" && casing.camel("Rectangle") == "rectangle"
    ensures behaviour == Generic ==> RenderRpc(sig, behaviour, casing) == "listFeatures (rectangle: Rectangle): Stream<Feature>"
    ensures behaviour == Native ==> RenderRpc(sig, behaviour, casing) == "listFeatures (rectangle: Rectangle): Stream"
    ensures behaviour == Strip ==> RenderRpc(sig, behaviour, casing) == "listFeatures (rectangle: Rectangle): Feature"
  {
    assert RequestVariable(sig, behaviour, casing) == "rectangle";
    match behaviour
    case Generic => ListFeaturesGenericText();
    case Native => ListFeaturesNativeText();
    case Strip => ListFeaturesStripText();
  }

  /** What a line spelling `ListFeaturesShape` from its first character turns into. */
  lemma ListFeaturesRendered(line: string, sh: RpcShape, behaviour: StreamBehaviour, casing: CaseConverter)
    requires sh == ListFeaturesShape && SpelledAt(line, 0, sh)
    requires casing.camel("ListFeatures") == "listFeatures" && casing.camel("Rectangle") == "rectangle"
    ensures behaviour == Generic ==> ParseRpcLine(line, behaviour, casing) == "listFeatures (rectangle: Rectangle): Stream<Feature>"
    ensures behaviour == Native ==> ParseRpcLine(line, behaviour, casing) == "listFeatures (rectangle: Rectangle): Stream"
    ensures behaviour == Strip ==> ParseRpcLine(line, behaviour, casing) == "listFeatures (rectangle: Rectangle): Feature"
  {
    ListFeaturesShapeWellFormed(sh);
    ParseRpcLineRenders(line, behaviour, casing, 0, sh);
    ListFeaturesSignature(Signature(sh), behaviour, casing);
  }

  /** The line of tests/rpc-parser.test.ts under each stream behaviour. The test calls
      `parseRpcLine` with no behaviour, which takes the `Generic` branch of `getRpcType`. */
  lemma ListFeaturesExample(line: string, behaviour: StreamBehaviour, casing: CaseConverter)
    requires line == "rpc ListFeatures(Rectangle) returns (stream Feature) {}"
    requires casing.camel("ListFeatures") == "listFeatures" && casing.camel("Rectangle") == "rectangle"
    ensures behaviour == Generic ==> ParseRpcLine(line, behaviour, casing) == "listFeatures (rectangle: Rectangle): Stream<Feature>"
    ensures behaviour == Native ==> ParseRpcLine(line, behaviour, casing) == "listFeatures (rectangle: Rectangle): Stream"
    ensures behaviour == Strip ==> ParseRpcLine(line, behaviour, casing) == "listFeatures (rectangle: Rectangle): Feature"
  {
    var sh := ListFeaturesShape;
    ListFeaturesShapeSpells(sh);
    ContainsAtSlice(line, 0, Spell(sh));
    assert line[0..|line|] == line;
    ListFeaturesRendered(line, sh, behaviour, casing);
  }
}
