/** Character classes and string helpers shared by the text-processing modules. */
module Text {

  /** The code points for which Python's `str.isspace` holds; `str.strip` uses the same set. */
  predicate IsSpace(c: char) {
    var n := c as int;
    || 0x09 <= n <= 0x0D || 0x1C <= n <= 0x20 || n == 0x85 || n == 0xA0 || n == 0x1680
    || 0x2000 <= n <= 0x200A || n == 0x2028 || n == 0x2029 || n == 0x202F || n == 0x205F || n == 0x3000
  }

  predicate StartsWith(s: string, prefix: string) {
    prefix <= s
  }

  predicate EndsWith(s: string, suffix: string) {
    |suffix| <= |s| && s[|s| - |suffix|..] == suffix
  }

  function Min(a: int, b: int): int {
    if a <= b then a else b
  }

  function Max(a: int, b: int): int {
    if a <= b then b else a
  }

  function LStrip(s: string): string {
    if s != "" && IsSpace(s[0]) then LStrip(s[1..]) else s
  }

  function RStrip(s: string): string {
    if s != "" && IsSpace(s[|s| - 1]) then RStrip(s[..|s| - 1]) else s
  }

  function Strip(s: string): string {
    RStrip(LStrip(s))
  }

  function Concat(parts: seq<string>): string {
    if parts == [] then "" else parts[0] + Concat(parts[1..])
  }

  lemma Associate(a: string, b: string, c: string)
    ensures a + (b + c) == a + b + c
  {
  }

  lemma {:induction false} ConcatAppend(parts: seq<string>, last: string)
    ensures Concat(parts + [last]) == Concat(parts) + last
  {
    if parts == [] {
      assert Concat([last]) == last + Concat([]);
    } else {
      assert (parts + [last])[1..] == parts[1..] + [last];
      ConcatAppend(parts[1..], last);
    }
  }

  // --- Trimming ---

  predicate Trimmed(s: string) {
    s == "" || (!IsSpace(s[0]) && !IsSpace(s[|s| - 1]))
  }

  ghost predicate AllSpace(s: string) {
    forall i: nat :: i < |s| ==> IsSpace(s[i])
  }

  lemma {:induction false} LStripFacts(s: string)
    ensures LStrip(s) == "" || !IsSpace(LStrip(s)[0])
    ensures |LStrip(s)| <= |s| && LStrip(s) == s[|s| - |LStrip(s)|..]
    ensures AllSpace(s[..|s| - |LStrip(s)|])
  {
    if s != "" && IsSpace(s[0]) {
      LStripFacts(s[1..]);
      var n := |s| - |LStrip(s)|;
      assert s[..n] == [s[0]] + s[1..][..n - 1];
    }
  }

  lemma {:induction false} RStripFacts(s: string)
    ensures RStrip(s) == "" || !IsSpace(RStrip(s)[|RStrip(s)| - 1])
    ensures RStrip(s) <= s
    ensures AllSpace(s[|RStrip(s)|..])
    ensures s != "" && !IsSpace(s[0]) ==> RStrip(s) != ""
  {
    if s != "" && IsSpace(s[|s| - 1]) {
      RStripFacts(s[..|s| - 1]);
      assert s[|RStrip(s)|..] == s[..|s| - 1][|RStrip(s)|..] + [s[|s| - 1]];
    }
  }

  lemma {:induction false} LStripDropsSpace(s: string, rest: string)
    requires AllSpace(s) && (rest == "" || !IsSpace(rest[0]))
    ensures LStrip(s + rest) == rest
  {
    if s == "" {
      assert s + rest == rest;
    } else {
      assert (s + rest)[1..] == s[1..] + rest;
      LStripDropsSpace(s[1..], rest);
    }
  }

  lemma {:induction false} RStripDropsSpace(rest: string, s: string)
    requires AllSpace(s) && (rest == "" || !IsSpace(rest[|rest| - 1]))
    ensures RStrip(rest + s) == rest
  {
    if s == "" {
      assert rest + s == rest;
    } else {
      assert (rest + s)[..|rest + s| - 1] == rest + s[..|s| - 1];
      RStripDropsSpace(rest, s[..|s| - 1]);
    }
  }

  /** Trimming takes exactly the surrounding whitespace away. */
  lemma StripDropsSurroundings(before: string, s: string, after: string)
    requires AllSpace(before) && AllSpace(after) && Trimmed(s)
    ensures Strip(before + s + after) == s
  {
    if s == "" {
      assert before + s + after == (before + after) + "";
      LStripDropsSpace(before + after, "");
    } else {
      assert before + s + after == before + (s + after);
      LStripDropsSpace(before, s + after);
      RStripDropsSpace(s, after);
    }
  }

  /** And every text is of this form. */
  lemma TextAroundStrip(s: string) returns (before: string, after: string)
    ensures AllSpace(before) && AllSpace(after) && Trimmed(Strip(s)) && s == before + Strip(s) + after
  {
    LStripFacts(s);
    RStripFacts(LStrip(s));
    before, after := s[..|s| - |LStrip(s)|], LStrip(s)[|Strip(s)|..];
  }

  // --- What is left without whitespace ---

  /** The characters that are not whitespace, in order. */
  function Solid(s: string): string {
    if s == "" then ""
    else if IsSpace(s[|s| - 1]) then Solid(s[..|s| - 1])
    else Solid(s[..|s| - 1]) + [s[|s| - 1]]
  }

  lemma {:induction false} SolidAppend(a: string, b: string)
    ensures Solid(a + b) == Solid(a) + Solid(b)
  {
    if b == "" {
      assert a + b == a;
    } else {
      var n := |b| - 1;
      assert (a + b)[..|a + b| - 1] == a + b[..n];
      SolidAppend(a, b[..n]);
    }
  }

  lemma {:induction false} SpaceIsNotSolid(s: string)
    ensures AllSpace(s) <==> Solid(s) == ""
  {
    if s != "" {
      SpaceIsNotSolid(s[..|s| - 1]);
      assert s == s[..|s| - 1] + [s[|s| - 1]];
    }
  }

  lemma SolidOne(c: char)
    ensures Solid([c]) == if IsSpace(c) then "" else [c]
  {
    assert [c][..0] == "";
  }

  /** Trimming keeps every character that is not whitespace. */
  lemma SolidOfStrip(s: string)
    ensures Solid(Strip(s)) == Solid(s)
  {
    var before, after := TextAroundStrip(s);
    SolidAppend(before + Strip(s), after);
    SolidAppend(before, Strip(s));
    SpaceIsNotSolid(before);
    SpaceIsNotSolid(after);
  }

  lemma {:induction false} SolidFits(s: string)
    ensures |Solid(s)| <= |s|
  {
    if s != "" {
      SolidFits(s[..|s| - 1]);
    }
  }

  /** Trimmed text has two characters exactly when the text has two that are not whitespace. */
  lemma TwoSolidCharacters(s: string)
    ensures |Strip(s)| >= 2 <==> |Solid(s)| >= 2
  {
    var t := Strip(s);
    var before, after := TextAroundStrip(s);
    SolidOfStrip(s);
    if |t| >= 2 {
      var middle := t[1..|t| - 1];
      assert t[1..] == middle + [t[|t| - 1]];
      assert t == [t[0]] + t[1..] == [t[0]] + middle + [t[|t| - 1]];
      SolidAppend([t[0]] + middle, [t[|t| - 1]]);
      SolidAppend([t[0]], middle);
      SolidOne(t[0]);
      SolidOne(t[|t| - 1]);
    } else {
      SolidFits(t);
    }
  }
}
