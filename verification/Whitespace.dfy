/** Whitespace collapsing with a map back to original offsets. */
module Whitespace {
  import opened Text

  /** Every maximal run of whitespace becomes one space. */
  ghost function Collapse(s: string): string {
    if s == "" then ""
    else
      var n := |s| - 1;
      var c := Collapse(s[..n]);
      if !IsSpace(s[n]) then c + [s[n]]
      else if n > 0 && IsSpace(s[n - 1]) then c
      else c + " "
  }

  /** The greatest cut of `text` whose collapsed form has at most `k` characters. */
  ghost function CollapsedEnd(text: string, k: nat): nat {
    if |Collapse(text)| <= k then |text| else CollapsedEnd(text[..|text| - 1], k)
  }

  lemma {:induction false} CollapseLast(s: string)
    requires s != ""
    ensures Collapse(s) != ""
    ensures Collapse(s)[|Collapse(s)| - 1] == if IsSpace(s[|s| - 1]) then ' ' else s[|s| - 1]
  {
    var n := |s| - 1;
    if IsSpace(s[n]) && n > 0 && IsSpace(s[n - 1]) {
      CollapseLast(s[..n]);
    }
  }

  lemma {:induction false} CollapseOfPrefix(s: string, n: nat)
    requires n <= |s|
    ensures Collapse(s[..n]) <= Collapse(s)
  {
    if n == |s| {
      assert s[..n] == s;
    } else {
      CollapseOfPrefix(s[..|s| - 1], n);
      assert s[..|s| - 1][..n] == s[..n];
    }
  }

  lemma CollapseAppend(s: string, c: char)
    ensures Collapse(s + [c]) ==
            if !IsSpace(c) then Collapse(s) + [c]
            else if s != "" && IsSpace(s[|s| - 1]) then Collapse(s)
            else Collapse(s) + " "
  {
  }

  /** No whitespace but single spaces. */
  ghost predicate SingleSpaced(s: string) {
    && (forall i :: 0 <= i < |s| && IsSpace(s[i]) ==> s[i] == ' ')
    && (forall i :: 0 < i < |s| && s[i - 1] == ' ' ==> s[i] != ' ')
  }

  lemma SingleSpacedGrows(s: string, c: char)
    requires SingleSpaced(s) && (IsSpace(c) ==> c == ' ' && (s == "" || s[|s| - 1] != ' '))
    ensures SingleSpaced(s + [c])
  {
  }

  lemma SolidGrowsByOne(s: string, c: char)
    ensures Solid(s + [c]) == if IsSpace(c) then Solid(s) else Solid(s) + [c]
  {
    assert (s + [c])[..|s|] == s;
  }

  /** Collapsing keeps every other character and leaves no whitespace but single spaces;
      `CollapseLast` says that one stands wherever there was whitespace. */
  lemma {:induction false} CollapseMeaning(s: string)
    ensures Solid(Collapse(s)) == Solid(s) && SingleSpaced(Collapse(s))
  {
    if s != "" {
      var n := |s| - 1;
      CollapseMeaning(s[..n]);
      if n > 0 {
        CollapseLast(s[..n]);
      }
      assert s == s[..n] + [s[n]];
      var c := if IsSpace(s[n]) then ' ' else s[n];
      SolidGrowsByOne(Collapse(s[..n]), c);
      if !(IsSpace(s[n]) && n > 0 && IsSpace(s[n - 1])) {
        SingleSpacedGrows(Collapse(s[..n]), c);
      }
    }
  }

  lemma SuffixAppend(x: string, y: string, d: char)
    requires EndsWith(x, y)
    ensures EndsWith(x + [d], y + [d])
    ensures y != "" ==> x[|x| - 1] == y[|y| - 1]
  {
  }

  lemma AppendOneKeepsEnding(a: string, b: string, c: char)
    requires b != "" && EndsWith(Collapse(a), Collapse(b))
    ensures EndsWith(Collapse(a + [c]), Collapse(b + [c]))
  {
    CollapseLast(b);
    assert a != "";
    CollapseLast(a);
    SuffixAppend(Collapse(a), Collapse(b), if IsSpace(c) then ' ' else c);
    assert IsSpace(a[|a| - 1]) == IsSpace(b[|b| - 1]);
    CollapseAppend(a, c);
    CollapseAppend(b, c);
  }

  /** Appending the same text to two strings with the same collapsed ending keeps
      the collapsed ending. */
  lemma {:induction false} AppendKeepsEnding(a: string, b: string, x: string)
    requires b != "" && EndsWith(Collapse(a), Collapse(b))
    ensures EndsWith(Collapse(a + x), Collapse(b + x))
  {
    if x == "" {
      assert a + x == a && b + x == b;
    } else {
      var n := |x| - 1;
      AppendKeepsEnding(a, b, x[..n]);
      AppendOneKeepsEnding(a + x[..n], b + x[..n], x[n]);
      assert a + x == a + x[..n] + [x[n]];
      assert b + x == b + x[..n] + [x[n]];
    }
  }

  lemma CollapseOne(c: char)
    ensures Collapse([c]) == [if IsSpace(c) then ' ' else c]
  {
    assert [c][..0] == "";
  }

  lemma EndsWithLast(s: string, c: char)
    requires s != "" && s[|s| - 1] == c
    ensures EndsWith(s, [c])
  {
  }

  lemma LastCharacterEnds(a: string, c: char)
    ensures EndsWith(Collapse(a + [c]), Collapse([c]))
  {
    CollapseLast(a + [c]);
    CollapseOne(c);
    EndsWithLast(Collapse(a + [c]), if IsSpace(c) then ' ' else c);
  }

  lemma MoveFirst(a: string, b: string)
    requires b != ""
    ensures a + [b[0]] + b[1..] == a + b && [b[0]] + b[1..] == b
  {
  }

  /** Text that ends a string still ends it after collapsing. */
  lemma CollapseOfSuffix(a: string, b: string)
    ensures EndsWith(Collapse(a + b), Collapse(b))
  {
    if b != "" {
      LastCharacterEnds(a, b[0]);
      AppendKeepsEnding(a + [b[0]], [b[0]], b[1..]);
      MoveFirst(a, b);
    }
  }

  /** The cut is the greatest one: longer prefixes collapse to more characters. */
  lemma {:induction false} CollapsedEndIsGreatest(text: string, k: nat, n: nat)
    requires n <= |text|
    ensures CollapsedEnd(text, k) <= |text|
    ensures |Collapse(text[..n])| <= k <==> n <= CollapsedEnd(text, k)
  {
    CollapseOfPrefix(text, n);
    if |Collapse(text)| > k {
      var m := |text| - 1;
      if n <= m {
        CollapsedEndIsGreatest(text[..m], k, n);
        assert text[..m][..n] == text[..n];
      } else {
        assert text[..n] == text;
        CollapsedEndIsGreatest(text[..m], k, m);
      }
    }
  }

  /** Collapsing the text before the `k`-th recorded offset gives the first `k` collapsed characters. */
  lemma {:induction false} CollapsedEndIsExact(text: string, k: nat)
    requires k <= |Collapse(text)|
    ensures CollapsedEnd(text, k) <= |text|
    ensures Collapse(text[..CollapsedEnd(text, k)]) == Collapse(text)[..k]
  {
    CollapsedEndIsGreatest(text, k, 0);
    if |Collapse(text)| == k {
      assert text[..|text|] == text;
    } else {
      var m := |text| - 1;
      assert |Collapse(text[..m])| >= k;
      CollapsedEndIsExact(text[..m], k);
      var e := CollapsedEnd(text, k);
      assert text[..m][..e] == text[..e];
      CollapseOfPrefix(text, e);
    }
  }

  /** No whitespace run continues across offset `i`. */
  ghost predicate Boundary(text: string, i: nat)
    requires i <= |text|
  {
    i == 0 || i == |text| || !IsSpace(text[i - 1]) || !IsSpace(text[i])
  }

  lemma CollapseOneMore(text: string, i: nat)
    requires i < |text|
    ensures Collapse(text[..i + 1]) ==
            if !IsSpace(text[i]) then Collapse(text[..i]) + [text[i]]
            else if i > 0 && IsSpace(text[i - 1]) then Collapse(text[..i])
            else Collapse(text[..i]) + " "
  {
    assert text[..i + 1][..i] == text[..i];
  }

  /** At a boundary the text so far is the greatest cut of its collapsed length. */
  lemma BoundaryIsEnd(text: string, i: nat)
    requires i <= |text| && Boundary(text, i) && i > 0
    ensures CollapsedEnd(text, |Collapse(text[..i])|) == i
  {
    var k := |Collapse(text[..i])|;
    CollapsedEndIsGreatest(text, k, i);
    if i < |text| {
      CollapseOneMore(text, i);
      CollapsedEndIsGreatest(text, k, i + 1);
    }
  }

  /** The end of the whitespace run that starts at `start`. */
  method EndOfRun(text: string, start: nat) returns (end: nat)
    requires start < |text| && IsSpace(text[start]) && Boundary(text, start)
    ensures start < end <= |text| && Boundary(text, end)
    ensures Collapse(text[..end]) == Collapse(text[..start]) + " "
  {
    CollapseOneMore(text, start);
    end := start + 1;
    while end < |text| && IsSpace(text[end])
      invariant start < end <= |text| && IsSpace(text[end - 1])
      invariant Collapse(text[..end]) == Collapse(text[..start]) + " "
    {
      CollapseOneMore(text, end);
      end := end + 1;
    }
  }

  /** One pass over the text: the collapsed characters, and for each of them the
      end of the original text it stands for. */
  method NormaliseWhitespace(text: string) returns (normalized: string, originalEnds: seq<nat>)
    ensures normalized == Collapse(text)
    ensures |originalEnds| == |normalized|
    ensures forall k: nat :: k < |originalEnds| ==> originalEnds[k] == CollapsedEnd(text, k + 1)
  {
    normalized, originalEnds := "", [];
    var index := 0;
    while index < |text|
      invariant index <= |text| && Boundary(text, index)
      invariant normalized == Collapse(text[..index])
      invariant |originalEnds| == |normalized|
      invariant forall k: nat :: k < |originalEnds| ==> originalEnds[k] == CollapsedEnd(text, k + 1)
    {
      var c := text[index];
      if IsSpace(c) {
        var end := EndOfRun(text, index);
        BoundaryIsEnd(text, end);
        normalized := normalized + " ";
        originalEnds := originalEnds + [end];
        index := end;
      } else {
        CollapseOneMore(text, index);
        BoundaryIsEnd(text, index + 1);
        normalized := normalized + [c];
        originalEnds := originalEnds + [index + 1];
        index := index + 1;
      }
    }
    assert text[..index] == text;
  }
}
