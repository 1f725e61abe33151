/** The few operations on Python strings that the modelled code relies on. */
module Text {

  /** The characters for which Python's `str.isspace` holds. */
  predicate IsSpace(c: char) {
    var n := c as int;
    9 <= n <= 13 || 28 <= n <= 32 || n in {0x85, 0xA0, 0x1680, 0x2028, 0x2029, 0x202F, 0x205F, 0x3000}
    || 0x2000 <= n <= 0x200A
  }

  predicate Blank(s: string) {
    forall c | c in s :: IsSpace(c)
  }

  function LStrip(s: string): string {
    if s != [] && IsSpace(s[0]) then LStrip(s[1..]) else s
  }

  function RStrip(s: string): string {
    if s != [] && IsSpace(s[|s| - 1]) then RStrip(s[..|s| - 1]) else s
  }

  /** `str.strip` */
  function Strip(s: string): string {
    RStrip(LStrip(s))
  }

  lemma {:induction false} LStripBlank(s: string)
    ensures LStrip(s) == [] <==> Blank(s)
    ensures !Blank(s) ==> !Blank(LStrip(s))
  {
    if s != [] && IsSpace(s[0]) {
      LStripBlank(s[1..]);
      assert s == [s[0]] + s[1..];
    } else if s != [] {
      assert s[0] in s;
    }
  }

  lemma {:induction false} RStripBlank(s: string)
    ensures RStrip(s) == [] <==> Blank(s)
  {
    if s != [] && IsSpace(s[|s| - 1]) {
      RStripBlank(s[..|s| - 1]);
      assert s == s[..|s| - 1] + [s[|s| - 1]];
    } else if s != [] {
      assert s[|s| - 1] in s;
    }
  }

  /** `not s.strip()` is the test for a blank string. */
  lemma {:induction false} StripBlank(s: string)
    ensures Strip(s) == [] <==> Blank(s)
  {
    LStripBlank(s);
    RStripBlank(LStrip(s));
  }

  /** `needle in hay` */
  predicate Contains(hay: string, needle: string) {
    exists i | 0 <= i <= |hay| :: OccursAt(hay, needle, i)
  }

  predicate OccursAt(hay: string, needle: string, i: nat) {
    i + |needle| <= |hay| && hay[i..i + |needle|] == needle
  }

  lemma {:induction false} ContainsInside(left: string, hay: string, right: string, needle: string)
    requires Contains(hay, needle)
    ensures Contains(left + hay + right, needle)
  {
    var i: nat :| OccursAt(hay, needle, i);
    assert OccursAt(hay, needle, i);
    var all := left + hay + right;
    assert |all| == |left| + |hay| + |right|;
    assert all[|left| + i..|left| + i + |needle|] == hay[i..i + |needle|];
    assert OccursAt(all, needle, |left| + i);
  }

  predicate StartsWith(s: string, prefix: string) {
    prefix <= s
  }

  predicate StartsWithAny(s: string, prefixes: seq<string>) {
    exists p | p in prefixes :: StartsWith(s, p)
  }

  function LowerChar(c: char): char {
    if 'A' <= c <= 'Z' then (c as int + 32) as char else c
  }

  /** `str.lower` on the ASCII letters. */
  function Lower(s: string): (r: string)
    ensures |r| == |s| && forall i | 0 <= i < |s| :: r[i] == LowerChar(s[i])
  {
    seq(|s|, i requires 0 <= i < |s| => LowerChar(s[i]))
  }

  // ---- What these operations mean ----

  lemma {:induction false} SpaceTable(c: char)
    ensures IsSpace(c)
            <==> || c in " \t\n\r"
                 || c as int in {11, 12, 28, 29, 30, 31, 133, 160, 5760, 8232, 8233, 8239, 8287, 12288}
                 || c as int in {8192, 8193, 8194, 8195, 8196, 8197, 8198, 8199, 8200, 8201, 8202}
  {
    assert c in " \t\n\r" <==> c == ' ' || c == '\t' || c == '\n' || c == '\r';
  }

  lemma {:induction false} LStripSplits(s: string) returns (left: string)
    ensures s == left + LStrip(s) && Blank(left)
    ensures LStrip(s) != [] ==> !IsSpace(LStrip(s)[0])
  {
    if s != [] && IsSpace(s[0]) {
      var rest := LStripSplits(s[1..]);
      left := [s[0]] + rest;
    } else {
      left := [];
    }
  }

  lemma {:induction false} RStripSplits(s: string) returns (right: string)
    ensures s == RStrip(s) + right && Blank(right)
    ensures RStrip(s) != [] ==> !IsSpace(RStrip(s)[|RStrip(s)| - 1]) && RStrip(s)[0] == s[0]
  {
    if s != [] && IsSpace(s[|s| - 1]) {
      var rest := RStripSplits(s[..|s| - 1]);
      right := rest + [s[|s| - 1]];
    } else {
      right := [];
    }
  }

  /** Stripping takes white space off both ends, all of it and nothing else. */
  lemma {:induction false} StripIsCore(s: string) returns (left: string, right: string)
    ensures s == left + Strip(s) + right && Blank(left) && Blank(right)
    ensures Strip(s) != [] ==> !IsSpace(Strip(s)[0]) && !IsSpace(Strip(s)[|Strip(s)| - 1])
  {
    left := LStripSplits(s);
    right := RStripSplits(LStrip(s));
  }

  /** A text is stripped already just when it has no white space at either end. */
  lemma {:induction false} StrippedAlready(s: string)
    ensures s == Strip(s) <==> s == [] || (!IsSpace(s[0]) && !IsSpace(s[|s| - 1]))
  {
    var left, right := StripIsCore(s);
  }

  lemma {:induction false} ContainsMeans(hay: string, needle: string)
    ensures Contains(hay, needle) <==> exists left, right :: hay == left + needle + right
  {
    if i: nat :| i <= |hay| && OccursAt(hay, needle, i) {
      assert hay == hay[..i] + needle + hay[i + |needle|..];
    }
    if left, right :| hay == left + needle + right {
      assert hay[|left|..|left| + |needle|] == needle;
      assert OccursAt(hay, needle, |left|);
    }
  }

  predicate IsCapital(c: char) {
    c in "ABCDEFGHIJKLMNOPQRSTUVWXYZ"
  }

  /** The two characters are the same but perhaps for the case of a letter. */
  predicate SameButCase(c: char, d: char) {
    || c == d
    || (IsCapital(c) && d as int - 'a' as int == c as int - 'A' as int)
    || (IsCapital(d) && c as int - 'a' as int == d as int - 'A' as int)
  }

  lemma {:induction false} CapitalCodes(c: char)
    ensures IsCapital(c) <==> 65 <= c as int <= 90
  {
    var capitals := "ABCDEFGHIJKLMNOPQRSTUVWXYZ";
    assert forall i | 0 <= i < 26 :: capitals[i] as int == 65 + i;
    if 65 <= c as int <= 90 {
      assert capitals[c as int - 65] == c;
    }
  }

  /** A capital letter becomes its small letter, every other character stays. */
  lemma {:induction false} LowerOfChar(c: char)
    ensures LowerChar('A') == 'a' && LowerChar('Q') == 'q' && LowerChar('Z') == 'z'
    ensures if IsCapital(c) then LowerChar(c) as int - 'a' as int == c as int - 'A' as int else LowerChar(c) == c
    ensures !IsCapital(LowerChar(c)) && SameButCase(c, LowerChar(c))
  {
    CapitalCodes(c);
    CapitalCodes(LowerChar(c));
  }

  predicate SameTextButCase(s: string, t: string) {
    |s| == |t| && forall i | 0 <= i < |s| :: SameButCase(s[i], t[i])
  }

  /** Lower-casing identifies exactly the texts that differ in the case of letters alone. */
  lemma {:induction false} LowerIdentifiesCase(s: string, t: string)
    ensures Lower(s) == Lower(t) <==> SameTextButCase(s, t)
  {
    if |s| == |t| {
      forall i | 0 <= i < |s| ensures Lower(s)[i] == Lower(t)[i] <==> SameButCase(s[i], t[i]) {
        LowerOfChar(s[i]);
        LowerOfChar(t[i]);
        CapitalCodes(s[i]);
        CapitalCodes(t[i]);
      }
    }
  }

  /** Lower case has no capitals, and lower-casing again changes nothing. */
  lemma {:induction false} LowerIsLower(s: string)
    ensures forall c | c in Lower(s) :: !IsCapital(c)
    ensures Lower(Lower(s)) == Lower(s)
  {
    forall c | c in Lower(s) ensures !IsCapital(c) && LowerChar(c) == c {
      var i :| 0 <= i < |s| && Lower(s)[i] == c;
      LowerOfChar(s[i]);
      LowerOfChar(c);
    }
  }
}
