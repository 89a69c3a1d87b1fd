/**
  Values stored as CDATA sections: a value with the end delimiter in it is split over sections.
 */
module CData {
  import opened Escape

  const OPEN := "<![CDATA["
  const CLOSE := "]]>"

  /** The first place from i on where t stands, as strstr finds it; |s| if there is none. */
  function StrStr(s: string, i: nat, t: string): (k: nat)
    ensures i <= |s| ==> i <= k <= |s|
    ensures k < |s| ==> TextAt(s, k, t)
    ensures forall j :: i <= j < k ==> !TextAt(s, j, t)
    decreases |s| - i
  {
    if i >= |s| then |s| else if TextAt(s, i, t) then i else StrStr(s, i + 1, t)
  }

  /** The value from i on, with every end delimiter split between two sections. */
  function SplitFrom(s: string, i: nat): string
    requires i <= |s|
    decreases |s| - i
  {
    if i == |s| then ""
    else if TextAt(s, i, CLOSE) then "]]]]><![CDATA[>" + SplitFrom(s, i + 3)
    else [s[i]] + SplitFrom(s, i + 1)
  }

  function CDataText(s: string): string { OPEN + SplitFrom(s, 0) + CLOSE }

  /** Without an end delimiter between i and k the value is copied. */
  lemma {:induction false} SplitCopies(s: string, i: nat, k: nat)
    requires i <= k <= |s| && forall j :: i <= j < k ==> !TextAt(s, j, CLOSE)
    ensures SplitFrom(s, i) == s[i..k] + SplitFrom(s, k)
    decreases k - i
  {
    if i < k {
      SplitCopies(s, i + 1, k);
      assert s[i..k] == [s[i]] + s[i + 1..k];
      Appended([s[i]], s[i + 1..k], SplitFrom(s, k));
    } else {
      assert s[i..k] == "";
    }
  }

  method EncodeCDATASection(szData: string) returns (strData: string)
    ensures strData == CDataText(szData)
  {
    hide SplitFrom, TextAt;
    strData := OPEN;
    var next := 0;
    var end := StrStr(szData, 0, CLOSE);
    while end < |szData|
      invariant next <= |szData| && end == StrStr(szData, next, CLOSE)
      invariant strData + SplitFrom(szData, next) == OPEN + SplitFrom(szData, 0)
      decreases |szData| - next
    {
      SplitCopies(szData, next, end);
      SplitAt(szData, end);
      Moved(strData, szData[next..end], "]]]]><![CDATA[>", SplitFrom(szData, end + 3));
      strData := strData + szData[next..end] + "]]]]><![CDATA[>";
      next := end + 3;
      end := StrStr(szData, next, CLOSE);
    }
    SplitCopies(szData, next, |szData|);
    SplitEnds(szData);
    assert szData[next..|szData|] + "" == szData[next..];
    strData := strData + szData[next..] + CLOSE;
  }

  lemma SplitAt(s: string, k: nat)
    requires k < |s| && TextAt(s, k, CLOSE)
    ensures k + 3 <= |s| && SplitFrom(s, k) == "]]]]><![CDATA[>" + SplitFrom(s, k + 3)
  {
  }

  lemma SplitEnds(s: string)
    ensures SplitFrom(s, |s|) == ""
  {
  }

  lemma Moved(a: string, b: string, c: string, d: string)
    ensures a + (b + (c + d)) == (a + b + c) + d
  {
  }

  lemma {:induction false} SplitNulFree(s: string, i: nat)
    requires i <= |s| && forall k :: 0 <= k < |s| ==> s[k] != '\0'
    ensures forall k :: 0 <= k < |SplitFrom(s, i)| ==> SplitFrom(s, i)[k] != '\0'
    decreases |s| - i
  {
    if i < |s| { SplitNulFree(s, if TextAt(s, i, CLOSE) then i + 3 else i + 1); }
  }
}
