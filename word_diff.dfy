/** `getWordDifference`: in spite of its name, a split of two strings at their
    longest common prefix, at character level. */
module WordDiff {

  /** `dels` is what follows the common prefix in the old (typed) text, `adds`
      what follows it in the new text. */
  datatype WordDiff = WordDiff(dels: string, adds: string)

  /** Reference definition: the length of the longest common prefix. */
  function CommonPrefixLength(a: string, b: string): (n: nat)
    ensures n <= |a| && n <= |b|
    ensures a[..n] == b[..n]
    ensures n < |a| && n < |b| ==> a[n] != b[n]
  {
    if |a| == 0 || |b| == 0 || a[0] != b[0] then 0
    else
      var m := CommonPrefixLength(a[1..], b[1..]);
      assert a[..m + 1] == [a[0]] + a[1..][..m];
      assert b[..m + 1] == [b[0]] + b[1..][..m];
      1 + m
  }

  /** The index loop of `getWordDifference` from position `i` on, the first `i`
      characters being known to agree. */
  function DiffFrom(cmpWith: string, cmpTo: string, i: nat): (r: WordDiff)
    requires i <= |cmpWith| && i <= |cmpTo|
    requires cmpWith[..i] == cmpTo[..i]
    ensures var p := CommonPrefixLength(cmpWith, cmpTo);
      r == WordDiff(cmpTo[p..], cmpWith[p..])
    decreases |cmpWith| - i
  {
    if i == |cmpWith| then WordDiff(cmpTo[|cmpWith|..], "")
    else if i == |cmpTo| then WordDiff("", cmpWith[i..])
    else if cmpWith[i] != cmpTo[i] then WordDiff(cmpTo[i..], cmpWith[i..])
    else
      PrefixGrows(cmpWith, cmpTo, i);
      DiffFrom(cmpWith, cmpTo, i + 1)
  }

  /** Agreeing on `i` characters and on the next one is agreeing on `i + 1`. */
  lemma PrefixGrows(a: string, b: string, i: nat)
    requires i < |a| && i < |b| && a[..i] == b[..i] && a[i] == b[i]
    ensures a[..i + 1] == b[..i + 1]
  {
    assert a[..i + 1] == a[..i] + [a[i]];
    assert b[..i + 1] == b[..i] + [b[i]];
  }

  /** `getWordDifference(cmpWith, cmpTo)` with `cmpWith` the new text and `cmpTo`
      the typed one: both are the longest common prefix followed by `dels` (old)
      or `adds` (new), and the two remainders, when neither is empty, start with
      different characters. */
  function GetWordDifference(cmpWith: string, cmpTo: string): (r: WordDiff)
    ensures var p := CommonPrefixLength(cmpWith, cmpTo);
      cmpTo == cmpTo[..p] + r.dels && cmpWith == cmpTo[..p] + r.adds
    ensures r.dels != "" && r.adds != "" ==> r.dels[0] != r.adds[0]
  {
    var r := DiffFrom(cmpWith, cmpTo, 0);
    var p := CommonPrefixLength(cmpWith, cmpTo);
    assert cmpTo == cmpTo[..p] + cmpTo[p..];
    assert cmpWith == cmpWith[..p] + cmpWith[p..];
    r
  }

  /** Any split into a shared prefix and two remainders that do not start alike
      is the one `GetWordDifference` returns. */
  lemma {:induction false} WordDifferenceUnique(cmpWith: string, cmpTo: string, p: string, dels: string, adds: string)
    requires cmpTo == p + dels && cmpWith == p + adds
    requires dels != "" && adds != "" ==> dels[0] != adds[0]
    ensures GetWordDifference(cmpWith, cmpTo) == WordDiff(dels, adds)
  {
    var n := CommonPrefixLength(cmpWith, cmpTo);
    assert forall k :: 0 <= k < |p| ==> cmpWith[k] == p[k] == cmpTo[k];
    assert forall k :: 0 <= k < n ==> cmpWith[k] == cmpWith[..n][k] == cmpTo[..n][k] == cmpTo[k];
    assert |p| < |cmpWith| && |p| < |cmpTo| ==> cmpWith[|p|] == adds[0] && cmpTo[|p|] == dels[0];
    assert n == |p|;
    var r := GetWordDifference(cmpWith, cmpTo);
    assert cmpTo[..n] + r.dels == p + dels;
    assert cmpTo[..n] == p;
  }

  /** Equal texts leave nothing to delete and nothing to add. */
  lemma EqualTextsGiveEmptyDifference(s: string)
    ensures GetWordDifference(s, s) == WordDiff("", "")
  {
    WordDifferenceUnique(s, s, s, "", "");
    assert s + "" == s;
  }

  /** The example of a text edited in place: "hello world" becomes "hello there". */
  lemma HelloWorldExample()
    ensures GetWordDifference("hello there", "hello world") == WordDiff("world", "there")
  {
    WordDifferenceUnique("hello there", "hello world", "hello ", "world", "there");
  }
}
