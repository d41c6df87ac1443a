/** The filename classifier of the indexer (app.py, lines 27-32): a
    document file's base name gives a polarity, a model tag and a k string
    by ordered substring tests. */
module Classifier {
  import opened Wrappers
  import opened Strings

  /** The three attributes a document file name encodes. */
  datatype Classification = Classification(polarity: string, tag: string, k: string)

  const POLARITIES: set<string> := {"positive", "negative"}
  const TAGS: set<string> := {"UHC", "LM", "BT"}

  /** The polarity: "positive" is tested first, so it wins over "negative". */
  function PolarityOf(base: string): (p: Option<string>)
    ensures p.Some? ==> p.value in POLARITIES && Contains(base, p.value)
    ensures p.None? <==> !Contains(base, "positive") && !Contains(base, "negative")
    ensures Contains(base, "positive") ==> p == Some("positive")
    ensures !Contains(base, "positive") && Contains(base, "negative") ==> p == Some("negative")
  {
    if Contains(base, "positive") then Some("positive")
    else if Contains(base, "negative") then Some("negative")
    else None
  }

  /** The model tag: "UHC", then "LM", then "Brian", which is tagged "BT". */
  function ModelTagOf(base: string): (m: Option<string>)
    ensures m.Some? ==> m.value in TAGS
    ensures m.Some? && m.value != "BT" ==> Contains(base, m.value)
    ensures m == Some("BT") ==> Contains(base, "Brian")
    ensures m.None? <==> !Contains(base, "UHC") && !Contains(base, "LM") && !Contains(base, "Brian")
    ensures Contains(base, "UHC") ==> m == Some("UHC")
    ensures !Contains(base, "UHC") && Contains(base, "LM") ==> m == Some("LM")
    ensures !Contains(base, "UHC") && !Contains(base, "LM") && Contains(base, "Brian") ==> m == Some("BT")
  {
    if Contains(base, "UHC") then Some("UHC")
    else if Contains(base, "LM") then Some("LM")
    else if Contains(base, "Brian") then Some("BT")
    else None
  }

  /** The k string: the text after the last "k=", with every "mini.csv" and
      then every ".csv" removed; absent when the name has no "k=". */
  function KStringOf(base: string): (k: Option<string>)
    ensures k.Some? <==> Contains(base, "k=")
  {
    if Contains(base, "k=") then
      Some(Replace(Replace(AfterLast(base, "k="), "mini.csv", ""), ".csv", ""))
    else None
  }

  /** A name is classified when all three attributes are present and
      non-empty (Python truthiness); otherwise the document is not indexed. */
  function Classify(base: string): (c: Option<Classification>)
    ensures c.Some? <==> Truthy(PolarityOf(base)) && Truthy(ModelTagOf(base)) && Truthy(KStringOf(base))
    ensures c.Some? ==> c.value.polarity in POLARITIES && c.value.tag in TAGS && c.value.k != ""
    ensures c.Some? ==> && Some(c.value.polarity) == PolarityOf(base)
                        && Some(c.value.tag) == ModelTagOf(base)
                        && Some(c.value.k) == KStringOf(base)
  {
    var polarity := PolarityOf(base);
    var model := ModelTagOf(base);
    var kMatch := KStringOf(base);
    if Truthy(polarity) && Truthy(model) && Truthy(kMatch) then
      Some(Classification(polarity.value, model.value, kMatch.value))
    else None
  }

  /** The index's model id, `f"{polarity}{model}"`. */
  function ModelId(c: Classification): string
  {
    c.polarity + c.tag
  }

  /** Classification succeeds exactly when the base name holds a polarity
      token, a model token and a "k=" whose k string is non-empty. */
  lemma ClassifyComplete(base: string)
    ensures Classify(base).Some? <==>
              (Contains(base, "positive") || Contains(base, "negative")) &&
              (Contains(base, "UHC") || Contains(base, "LM") || Contains(base, "Brian")) &&
              Contains(base, "k=") && KStringOf(base).value != ""
  {
  }

  /** The k string is what follows the last "k=" of the name, cleaned. */
  lemma KStringAfterLastK(base: string)
    requires Contains(base, "k=")
    ensures var after := AfterLast(base, "k=");
            && !Contains(after, "k=")
            && |after| + 2 <= |base|
            && base == base[..|base| - |after| - 2] + "k=" + after
            && KStringOf(base) == Some(Replace(Replace(after, "mini.csv", ""), ".csv", ""))
  {
    var after := AfterLast(base, "k=");
    AfterLastOccurrence(base, "k=");
    assert base == base[..|base| - |after| - 2] + base[|base| - |after| - 2..];
  }

  /** A k string that is already clean ends the name after its last "k=". */
  lemma KStringOfCleanTail(base: string)
    requires Contains(base, "k=")
    requires !Contains(AfterLast(base, "k="), "mini.csv") && !Contains(AfterLast(base, "k="), ".csv")
    ensures KStringOf(base) == Some(AfterLast(base, "k="))
  {
    var after := AfterLast(base, "k=");
    ReplaceAbsent(after, "mini.csv", "");
    ReplaceAbsent(after, ".csv", "");
  }

  /** A model id names one of six dataset families. */
  lemma ModelIdKnown(base: string)
    requires Classify(base).Some?
    ensures ModelId(Classify(base).value) in
              {"positiveUHC", "positiveLM", "positiveBT", "negativeUHC", "negativeLM", "negativeBT"}
  {
    var c := Classify(base).value;
    var p, t := c.polarity, c.tag;
    assert p == "positive" || p == "negative";
    assert t == "UHC" || t == "LM" || t == "BT";
    assert "positive" + "UHC" == "positiveUHC" && "positive" + "LM" == "positiveLM";
    assert "positive" + "BT" == "positiveBT" && "negative" + "UHC" == "negativeUHC";
    assert "negative" + "LM" == "negativeLM" && "negative" + "BT" == "negativeBT";
  }

  /** Distinct polarity/tag pairs never share a model id, so the first key
      component of the index determines both. */
  lemma ModelIdInjective(c1: Classification, c2: Classification)
    requires c1.polarity in POLARITIES && c1.tag in TAGS
    requires c2.polarity in POLARITIES && c2.tag in TAGS
    requires ModelId(c1) == ModelId(c2)
    ensures c1.polarity == c2.polarity && c1.tag == c2.tag
  {
    assert |c1.polarity| == |c2.polarity| == 8;
    assert ModelId(c1)[..8] == c1.polarity;
    assert ModelId(c2)[..8] == c2.polarity;
    assert ModelId(c1)[8..] == c1.tag;
    assert ModelId(c2)[8..] == c2.tag;
  }
}
