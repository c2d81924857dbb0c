/** The delimiter table: which literal token switches which inline style. */
module Config {
  import opened TextNodes

  /** The table's keys, in the order the table lists them. */
  const Keys: seq<string> := ["**", "_", "`"]

  /** Token to style. */
  const Delimiters: map<string, TextType> := map["**" := Bold, "_" := Italic, "`" := Code]

  /** The keys are exactly the table's domain, listed once each, none empty,
      and no two of them switch the same style. */
  lemma KeysDescribeTable()
    ensures Delimiters.Keys == set d | d in Keys
    ensures forall i, j :: 0 <= i < j < |Keys| ==> Keys[i] != Keys[j]
    ensures forall d :: d in Keys ==> |d| > 0
    ensures forall a, b :: a in Delimiters && b in Delimiters && Delimiters[a] == Delimiters[b] ==> a == b
    ensures forall d :: d in Delimiters ==> Delimiters[d] != Text
  {
  }
}
