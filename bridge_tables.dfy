/** The built-in table of `StenogressiveBridge` (weekend-prototype.py). */
module BridgeTables {
  import opened Dicts

  /** `compressions` as `StenogressiveBridge.__init__` builds it, in insertion order. */
  const BridgeDict: Dict<string> := [
    ("in order to", "[1]"),
    ("be able to", "[2]"),
    ("with respect to", "[3]"),
    ("at this point in time", "[4]"),
    ("the fact that", "[5]"),
    ("as a result of", "[6]"),
    ("in accordance with", "[7]"),
    ("for the purpose of", "[8]"),
    ("in the event that", "[9]"),
    ("with regard to", "[10]"),
    ("artificial intelligence", "[AI]"),
    ("machine learning", "[ML]"),
    ("large language model", "[LLM]"),
    ("neural network", "[NN]"),
    ("natural language processing", "[NLP]"),
    ("application programming interface", "[API]"),
    ("user interface", "[UI]"),
    ("user experience", "[UX]"),
    ("database", "[DB]"),
    ("javascript", "[JS]"),
    ("is going to", "[>]"),
    ("was going to", "[>.]"),
    ("will be able to", "[>>]"),
    ("would have been", "[w.]"),
    ("could have been", "[c.]"),
    ("should have been", "[s.]"),
    ("might have been", "[m.]"),
    ("return on investment", "[ROI]"),
    ("key performance indicator", "[KPI]"),
    ("quarter over quarter", "[QoQ]"),
    ("year over year", "[YoY]"),
    ("total addressable market", "[TAM]")
  ]
}
