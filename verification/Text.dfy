/** Splitting text at a separator. */
module Text {

  /** The text before a first separator and the text after it are determined by the whole. */
  lemma SplitAtFirst(separator: char, a: string, b: string, x: string, y: string)
    requires separator !in a && separator !in b && a + [separator] + x == b + [separator] + y
    ensures a == b && x == y
  {
    var s, t := a + [separator] + x, b + [separator] + y;
    assert forall i :: 0 <= i < |a| ==> s[i] in a;
    assert forall i :: 0 <= i < |b| ==> t[i] in b;
    assert s[|a|] == separator && t[|b|] == separator;
    assert s[..|a|] == a && t[..|b|] == b;
    assert s[|a| + 1..] == x && t[|b| + 1..] == y;
  }
}
