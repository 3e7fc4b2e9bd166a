/**
 The printed form of an array, written into a buffer whose size is computed first.
 Elements are given by their texts.
 */
module ArrayText {

  const NUL: char := '\0'

  /** The size that the first loop computes. */
  function Computed(texts: seq<string>): (len: nat)
    ensures 2 <= len
  {
    if texts == [] then 2 else Computed(texts[..|texts| - 1]) + |texts[|texts| - 1]| + 1
  }

  /** The texts separated by commas. */
  function Joined(texts: seq<string>): string
  {
    if texts == [] then ""
    else Joined(texts[..|texts| - 1]) + (if |texts| > 1 then "," else "") + texts[|texts| - 1]
  }

  /** What the second loop stores, terminator included. */
  function Printed(texts: seq<string>): string
  {
    "[" + Joined(texts) + "]" + [NUL]
  }

  lemma {:induction false} JoinedLength(texts: seq<string>)
    requires texts != []
    ensures |Joined(texts)| + 3 == Computed(texts)
  {
    if |texts| > 1 {
      JoinedLength(texts[..|texts| - 1]);
    }
  }

  /** The buffer is filled exactly for every non-empty array; for the empty one the
      three characters stored do not fit the two computed. */
  lemma FitsExactlyWhenNonEmpty(texts: seq<string>)
    ensures |Printed(texts)| <= Computed(texts) <==> texts != []
    ensures texts != [] ==> |Printed(texts)| == Computed(texts)
  {
    if texts != [] {
      JoinedLength(texts);
    }
  }

  lemma {:induction false} JoinedUpTo(texts: seq<string>, u: nat)
    requires u <= |texts|
    ensures Joined(texts[..u]) <= Joined(texts)
    decreases |texts|
  {
    if u < |texts| {
      JoinedUpTo(texts[..|texts| - 1], u);
      assert texts[..|texts| - 1][..u] == texts[..u];
    } else {
      assert texts[..u] == texts;
    }
  }

  /** The text of element u stands where the sizes of those before it put it, behind the
      bracket if it is the first and behind a comma if not. */
  lemma ElementStands(texts: seq<string>, u: nat)
    requires u < |texts|
    ensures var at, printed := Computed(texts[..u]) - 1, Printed(texts);
            && at + |texts[u]| + 2 <= |printed| && printed[at..at + |texts[u]|] == texts[u]
            && printed[at - 1] == if u == 0 then '[' else ','
  {
    var before, with := Joined(texts[..u]), Joined(texts[..u + 1]);
    assert texts[..u + 1][..u] == texts[..u];
    JoinedUpTo(texts, u + 1);
    if u > 0 {
      JoinedLength(texts[..u]);
    }
    assert with == before + (if u > 0 then "," else "") + texts[u];
    var at := Computed(texts[..u]) - 1;
    assert with[at - 1..at - 1 + |texts[u]|] == texts[u];
    assert forall i :: 0 <= i < |with| ==> Printed(texts)[i + 1] == with[i];
  }

  /** The text ends with the bracket and the terminator. */
  lemma PrintedEnds(texts: seq<string>)
    ensures 2 < |Printed(texts)| && Printed(texts)[0] == '['
    ensures Printed(texts)[|Printed(texts)| - 2..] == "]" + ['\0']
  {
  }

  lemma EmptyArrayOverflows()
    ensures Printed([]) == "[]" + [NUL] && Computed([]) == 2 < |Printed([])|
  {
  }

  lemma {:induction false} ComputedGrows(texts: seq<string>, n: nat)
    requires n <= |texts|
    ensures Computed(texts[..n]) <= Computed(texts)
    decreases |texts|
  {
    if n < |texts| {
      ComputedGrows(texts[..|texts| - 1], n);
      assert texts[..|texts| - 1][..n] == texts[..n];
    } else {
      assert texts[..n] == texts;
    }
  }

  /** The sizing loop. */
  method ComputeSize(texts: seq<string>) returns (len: nat)
    ensures len == Computed(texts)
  {
    len := 2;
    for u := 0 to |texts|
      invariant len == Computed(texts[..u])
    {
      assert texts[..u + 1][..u] == texts[..u];
      len := len + |texts[u]| + 1;
    }
    assert texts[..|texts|] == texts;
  }

  /** What stands in the buffer after the first u elements. */
  function Opened(texts: seq<string>, u: nat): string
    requires u <= |texts|
  {
    "[" + Joined(texts[..u])
  }

  lemma OpenedStep(texts: seq<string>, u: nat)
    requires u < |texts|
    ensures Opened(texts, u + 1) == Opened(texts, u) + (if u != 0 then "," else "") + texts[u]
    ensures |Opened(texts, u + 1)| + 2 <= Computed(texts)
  {
    assert texts[..u + 1][..u] == texts[..u];
    ComputedGrows(texts, u + 1);
    JoinedLength(texts[..u + 1]);
  }

  /** The opening bracket and the writing loop. */
  method WriteElements(str: array<char>, texts: seq<string>) returns (p: nat)
    requires str.Length == Computed(texts)
    modifies str
    ensures p == |Opened(texts, |texts|)| < str.Length && str[..p] == Opened(texts, |texts|)
  {
    p := CopyText(str, 0, "[");
    for u := 0 to |texts|
      invariant p == |Opened(texts, u)| < str.Length && str[..p] == Opened(texts, u)
    {
      OpenedStep(texts, u);
      if u != 0 {
        p := CopyText(str, p, ",");
      }
      p := CopyText(str, p, texts[u]);
    }
  }

  /** Requires a non-empty array because only then is the buffer large enough. */
  method ToChars(texts: seq<string>) returns (str: array<char>)
    requires texts != []
    ensures fresh(str) && str[..] == Printed(texts)
  {
    var len := ComputeSize(texts);
    str := new char[len];
    var p := WriteElements(str, texts);
    assert texts[..|texts|] == texts;
    FitsExactlyWhenNonEmpty(texts);
    p := CopyText(str, p, "]");
    p := CopyText(str, p, [NUL]);
    assert str[..p] == str[..];
  }

  /** memcpy of a text to str + p; returns the position behind it. */
  method CopyText(str: array<char>, p: nat, text: string) returns (q: nat)
    requires p + |text| <= str.Length
    modifies str
    ensures q == p + |text| && str[..q] == old(str[..p]) + text
  {
    for i := 0 to |text|
      invariant str[..p] == old(str[..p]) && str[p..p + i] == text[..i]
    {
      str[p + i] := text[i];
    }
    q := p + |text|;
    assert str[..q] == str[..p] + str[p..q];
  }
}
