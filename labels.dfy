/** The heading shown for each check: `key.charAt(0).toUpperCase() + key.slice(1) + ' Verification'`. */
module Labels {
  import opened FormState

  const Suffix: string := " Verification"

  /** Upper-casing of one character, for the ASCII letters a to z; other characters are kept. */
  function UpperChar(c: char): (u: char)
    ensures 'a' <= c <= 'z' ==> 'A' <= u <= 'Z' && u as int - c as int == 'A' as int - 'a' as int
    ensures !('a' <= c <= 'z') ==> u == c
  {
    if 'a' <= c <= 'z' then (c as int - 'a' as int + 'A' as int) as char else c
  }

  /** The label for a key; for an empty key `charAt(0)` and `slice(1)` are both empty. */
  function Label(key: string): (heading: string)
    ensures |heading| == |key| + |Suffix|
    ensures |key| > 0 ==> heading[0] == UpperChar(key[0])
    ensures forall i :: 0 < i < |key| ==> heading[i] == key[i]
    ensures heading[|key|..] == Suffix
  {
    (if key == [] then "" else [UpperChar(key[0])] + key[1..]) + Suffix
  }

  /** Two keys that differ after their first character get different labels. */
  lemma LabelDistinguishesTails(k1: string, k2: string)
    requires |k1| > 0 && |k2| > 0
    requires Label(k1) == Label(k2)
    ensures |k1| == |k2| && k1[1..] == k2[1..] && UpperChar(k1[0]) == UpperChar(k2[0])
  {
  }

  /** No two checks share a heading. */
  lemma CheckLabelsDistinct(a: CheckName, b: CheckName)
    requires a != b
    ensures Label(Key(a)) != Label(Key(b))
  {
  }
}
