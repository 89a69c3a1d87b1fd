/**
  TokenPos: the cursor with which names, attributes and nodes are read off the text.
 */
module Token {
  import opened Escape
  import opened Tags
  import A = Attribs
  import N = Nodes

  lemma NameGrows(s: string, j: nat, k: nat)
    requires j <= k < |s| && s[k] != '\0' && !EndsName(s[k]) && s[j..k] + NameAt(s, k) == NameAt(s, j)
    ensures s[j..k + 1] + NameAt(s, k + 1) == NameAt(s, j)
  {
    Appended(s[j..k], [s[k]], NameAt(s, k + 1));
    assert s[j..k + 1] == s[j..k] + [s[k]];
  }

  lemma NameEnds(s: string, k: nat)
    requires CharAt(s, k) == '\0' || EndsName(s[k])
    ensures NameAt(s, k) == ""
  {
  }

  lemma NamePrefix(s: string, j: nat, k: nat)
    requires j <= k <= |s|
    ensures s[j..k] + "" == s[j..k] && s[j..j] + NameAt(s, j) == NameAt(s, j)
  {
    assert s[j..j] == "";
  }

  class TokenPos {
    const text: string
    var nL: int
    var nR: int
    var nNext: nat
    var quoted: bool

    constructor (pDocText: string, next: nat)
      ensures text == pDocText && nNext == next && nL == 0 && nR == -1 && !quoted
    {
      text := pDocText;
      nL, nR, nNext, quoted := 0, -1, next, false;
    }

    /** Go to the next character that is not whitespace; is there one? */
    method FindAny() returns (found: bool)
      requires nNext <= |text|
      modifies this`nL, this`nR, this`nNext
      ensures nNext == A.SkipSpace(text, old(nNext)) <= |text| && nL == nNext && nR == nNext - 1
      ensures nNext == old(nNext) + LeadingSpace(text[old(nNext)..])
      ensures found == (CharAt(text, nNext) != '\0')
    {
      while IsWhitespace(CharAt(text, nNext))
        invariant old(nNext) <= nNext <= |text|
        invariant A.SkipSpace(text, nNext) == A.SkipSpace(text, old(nNext))
        invariant nNext + LeadingSpace(text[nNext..]) == old(nNext) + LeadingSpace(text[old(nNext)..])
        decreases |text| - nNext
      {
        assert text[nNext..][1..] == text[nNext + 1..];
        nNext := nNext + 1;
      }
      nL := nNext;
      nR := nNext - 1;
      found := CharAt(text, nNext) != '\0';
    }

    /** Skip whitespace, if a tag or the end of the text comes next. */
    method WhitespaceToTag(n: nat) returns (next: nat)
      requires n <= |text| && NulFree(text)
      modifies this`nL, this`nR, this`nNext
      ensures next == nNext == n + TagCut(text[n..])
    {
      nNext := n;
      var any := FindAny();
      if any && text[nNext] != '<' {
        nNext := n;
        nR := n - 1;
      }
      next := nNext;
    }

    /** The name that comes next, after any whitespace; a special character stands for itself. */
    method FindName() returns (found: bool)
      requires nNext <= |text|
      modifies this`nL, this`nR, this`nNext
      ensures var j := A.SkipSpace(text, old(nNext));
        found == (CharAt(text, j) != '\0') && nL == j &&
        (found ==>
           j <= nR + 1 <= |text| && text[j..nR + 1] == if NameAt(text, j) == "" then [text[j]] else NameAt(text, j))
    {
      hide NameAt;
      found := FindAny();
      if found {
        ghost var j := nNext;
        NamePrefix(text, j, j);
        while CharAt(text, nNext) != '\0' && !EndsName(text[nNext])
          invariant nL == j <= nNext <= |text| && text[j..nNext] + NameAt(text, nNext) == NameAt(text, j)
          decreases |text| - nNext
        {
          NameGrows(text, j, nNext);
          nNext := nNext + 1;
        }
        NameEnds(text, nNext);
        NamePrefix(text, j, nNext);
        if nNext == nL {
          nNext := nNext + 1;
        }
        nR := nNext - 1;
      }
    }

    /** Does the token match the name, up to the end of a path word? */
    method Match(szName: string) returns (match_: bool)
      requires 0 <= nL <= nR + 1 <= |text|
      ensures match_ == A.Matches(text[nL..nR + 1], szName)
    {
      var n := 0;
      while n < nR + 1 - nL && n < |szName| && text[nL + n] == szName[n]
        invariant 0 <= n <= nR + 1 - nL && n <= |szName| && text[nL..nL + n] == szName[..n]
        decreases nR + 1 - nL - n
      {
        assert text[nL..nL + n + 1] == text[nL..nL + n] + [text[nL + n]];
        n := n + 1;
      }
      if n < nR + 1 - nL {
        if nR + 1 - nL <= |szName| && szName[..nR + 1 - nL] == text[nL..nR + 1] {
          assert szName[..nR + 1 - nL][n] == text[nL..nR + 1][n];
        }
      }
      match_ := n == nR + 1 - nL && (n == |szName| || A.EndsPathWord(szName[n]));
    }

    /** The next token of a tag, whitespace in front of it skipped already. */
    method ReadToken(value: bool)
      requires nNext < |text|
      modifies this`nL, this`nR, this`nNext, this`quoted
      ensures 0 <= nL && nL - 1 <= nR && A.TokenAt(text, old(nNext), value) == A.Token(nL, nR + 1, quoted, nNext)
    {
      ghost var i := nNext;
      var cFirstChar := text[nNext];
      if A.IsQuote(cFirstChar) {
        quoted := true;
        nNext := nNext + 1;
        nL := nNext;
        while CharAt(text, nNext) != '\0' && CharAt(text, nNext) != cFirstChar
          invariant quoted && nL == i + 1 && i < nNext <= |text| &&
            A.QuoteEnd(text, nNext, cFirstChar) == A.QuoteEnd(text, i + 1, cFirstChar)
          decreases |text| - nNext
        {
          nNext := nNext + 1;
        }
        nR := nNext - 1;
        if CharAt(text, nNext) != '\0' {
          nNext := nNext + 1;
        }
      } else {
        quoted := false;
        nL := nNext;
        while CharAt(text, nNext) != '\0' &&
          !(if value then A.EndsUnquoted(text[nNext]) else A.EndsAttribName(text[nNext]))
          invariant !quoted && nL == i && i <= nNext <= |text| &&
            A.WordEnd(text, nNext, value) == A.WordEnd(text, i, value)
          decreases |text| - nNext
        {
          nNext := nNext + 1;
        }
        if nNext == nL {
          nNext := nNext + 1;
        }
        nR := nNext - 1;
      }
    }

    /** Find an attribute by name in the tag whose name comes next; leaves the token at its value. */
    method FindAttrib(name: string) returns (found: bool)
      requires nNext <= |text|
      modifies this
      ensures 0 <= nL && nL - 1 <= nR
      ensures A.Search(text, old(nNext), name, -1, A.NoName, false, old(quoted)) ==
        if found then A.At(nL, nR + 1, quoted) else A.Absent(nNext)
    {
      hide A.SkipSpace, A.TokenAt, A.Matches, LeadingSpace;
      var nAttrib := -1;
      var nFoundL: nat, nFoundAttribNameR: nat := 0, 0;
      var bAfterEqual := false;
      ghost var name0: A.NameFound := A.NoName;
      ghost var target := A.Search(text, nNext, name, -1, A.NoName, false, quoted);
      while true
        invariant nNext <= |text|
        invariant A.Search(text, nNext, name, nAttrib, name0, bAfterEqual, quoted) == target
        invariant if nFoundAttribNameR == 0 then name0 == A.NoName else name0 == A.Name(nFoundL, nFoundAttribNameR + 1)
        invariant nFoundL <= nFoundAttribNameR + 1 && nAttrib >= -1 && (nAttrib >= 0 ==> nNext >= 1)
        decreases |text| - nNext
      {
        var nTempPreSpaceStart := nNext;
        var any := FindAny();
        if !any {
          break;
        }
        ReadToken(bAfterEqual);
        if !bAfterEqual && !quoted {
          var cChar := text[nL];
          if cChar == '=' {
            bAfterEqual := true;
            continue;
          }
          if cChar == '>' || cChar == '/' || cChar == '?' {
            nNext := nTempPreSpaceStart;
            break;
          }
          if nFoundAttribNameR != 0 {
            break;
          }
          if nAttrib != -1 {
            var match_ := Match(name);
            if match_ {
              nFoundL, nFoundAttribNameR := nL, nR;
              name0 := A.Name(nL, nR + 1);
            }
          }
          nAttrib := nAttrib + 1;
        } else if nFoundAttribNameR != 0 {
          break;
        }
        bAfterEqual := false;
      }
      found := nFoundAttribNameR != 0;
      if found && !bAfterEqual {
        nL, nR, nNext := nFoundL, nFoundAttribNameR, nFoundAttribNameR + 1;
      }
    }

    /** Cut the next node or tag off the text. */
    method ParseNode() returns (node: N.Node)
      requires nNext <= |text|
      modifies this`nL, this`nR, this`nNext
      ensures node == N.NodeAt(text, old(nNext), old(nL), old(nR))
      ensures nNext == node.next && nL == node.nameL && nR == node.nameR
      ensures node.start == old(nNext) && node.next <= |text|
      ensures if node.kind == N.END_OF_DOCUMENT then node.next == node.start && CharAt(text, node.start) == '\0'
              else node.start < node.next
    {
      var start := nNext;
      var st := N.Initial(nL, nR);
      var pD := nNext;
      ghost var target := N.NodeAt(text, start, nL, nR);
      N.RunProgress(text, start, start, st);
      while true
        invariant start <= pD <= |text| && N.Run(text, pD, start, st) == target
        decreases |text| - pD
      {
        if CharAt(text, pD) == '\0' {
          node := N.Cut(pD, start, st);
          break;
        }
        var move := N.Step(text, pD, st);
        if move.Stop? {
          var at := N.After(pD, st, text[pD]);
          node := N.Node(move.kind, start, move.next, move.empty, at.nameL, at.nameR);
          break;
        }
        st := move.st;
        pD := pD + 1;
      }
      nL, nR, nNext := node.nameL, node.nameR, node.next;
    }
  }
}
