/** Node names (internal/mesh/crypto.go): trimming, lower-casing and validation. */
module Names {

  /** The Unicode White_Space characters, which Go's TrimSpace removes. */
  predicate IsSpace(c: char) {
    var n := c as int;
    || 9 <= n <= 13 || n == 32 || n == 0x85 || n == 0xA0 || n == 0x1680
    || 0x2000 <= n <= 0x200A || n == 0x2028 || n == 0x2029 || n == 0x202F || n == 0x205F || n == 0x3000
  }

  /** Letters whose lower case is ASCII: A to Z, and two outside ASCII, the dotted capital I and the kelvin sign. */
  function LowerChar(c: char): char {
    if 'A' <= c <= 'Z' then c - 'A' + 'a'
    else if c == '\U{0130}' then 'i'
    else if c == '\U{212A}' then 'k'
    else c
  }

  function ToLower(s: string): (r: string)
    ensures |r| == |s| && forall i :: 0 <= i < |s| ==> r[i] == LowerChar(s[i])
  {
    if s == "" then "" else [LowerChar(s[0])] + ToLower(s[1..])
  }

  function TrimLeft(s: string): string {
    if s != "" && IsSpace(s[0]) then TrimLeft(s[1..]) else s
  }

  function TrimRight(s: string): string {
    if s != "" && IsSpace(s[|s| - 1]) then TrimRight(s[..|s| - 1]) else s
  }

  function TrimSpace(s: string): string {
    TrimRight(TrimLeft(s))
  }

  function Normalize(name: string): string {
    ToLower(TrimSpace(name))
  }

  predicate ValidChar(c: char) {
    'a' <= c <= 'z' || '0' <= c <= '9' || c == '-'
  }

  predicate Valid(name: string) {
    1 <= |name| <= 32 && forall i :: 0 <= i < |name| ==> ValidChar(name[i])
  }

  /** No space at either end and no capital anywhere. */
  ghost predicate IsNormal(s: string) {
    && (s != "" ==> !IsSpace(s[0]) && !IsSpace(s[|s| - 1]))
    && forall i :: 0 <= i < |s| ==> LowerChar(s[i]) == s[i]
  }

  lemma {:induction false} TrimLeftTrims(s: string)
    ensures TrimLeft(s) != "" ==> !IsSpace(TrimLeft(s)[0])
    ensures |TrimLeft(s)| <= |s| && TrimLeft(s) == s[|s| - |TrimLeft(s)|..]
  {
    if s != "" && IsSpace(s[0]) {
      TrimLeftTrims(s[1..]);
    }
  }

  lemma {:induction false} TrimRightTrims(s: string)
    ensures TrimRight(s) <= s
    ensures TrimRight(s) != "" ==> !IsSpace(TrimRight(s)[|TrimRight(s)| - 1])
  {
    if s != "" && IsSpace(s[|s| - 1]) {
      TrimRightTrims(s[..|s| - 1]);
    }
  }

  lemma LowerKeepsSpace(c: char)
    ensures IsSpace(LowerChar(c)) == IsSpace(c) && LowerChar(LowerChar(c)) == LowerChar(c)
  {
  }

  lemma TrimSpaceTrims(s: string)
    ensures var t := TrimSpace(s); |t| <= |s| && (t != "" ==> !IsSpace(t[0]) && !IsSpace(t[|t| - 1]))
    ensures s == "" || (!IsSpace(s[0]) && !IsSpace(s[|s| - 1])) ==> TrimSpace(s) == s
  {
    TrimLeftTrims(s);
    TrimRightTrims(TrimLeft(s));
  }

  /** Normalization reaches exactly the normal strings and stops there. */
  lemma NormalizeFixedPoints(s: string)
    ensures IsNormal(Normalize(s))
    ensures Normalize(s) == s <==> IsNormal(s)
  {
    TrimSpaceTrims(s);
    hide TrimSpace;
    var t, n := TrimSpace(s), Normalize(s);
    forall i | 0 <= i < |n| ensures LowerChar(n[i]) == n[i] && IsSpace(n[i]) == IsSpace(t[i]) {
      LowerKeepsSpace(t[i]);
    }
    hide LowerChar, IsSpace;
    if IsNormal(s) {
      assert t == s;
      assert ToLower(s) == s;
    }
  }

  lemma NormalizeIdempotent(s: string)
    ensures Normalize(Normalize(s)) == Normalize(s)
  {
    NormalizeFixedPoints(s);
    NormalizeFixedPoints(Normalize(s));
  }

  const WHITE_SPACE: set<int> := {
    9, 10, 11, 12, 13, 32, 0x85, 0xA0, 0x1680, 0x2000, 0x2001, 0x2002, 0x2003, 0x2004, 0x2005, 0x2006, 0x2007, 0x2008, 0x2009, 0x200A,
    0x2028, 0x2029, 0x202F, 0x205F, 0x3000}

  /** Character by character: capitals move by 32, the two other letters to theirs, the rest stays. */
  ghost predicate Lowered(c: char, r: char) {
    var n := c as int;
    r as int == if 65 <= n <= 90 then n + 32 else if n == 0x130 then 105 else if n == 0x212A then 107 else n
  }

  ghost predicate AllSpace(s: string) {
    forall i :: 0 <= i < |s| ==> s[i] as int in WHITE_SPACE
  }

  /** What white space surrounds is left, in lower case. */
  lemma NormalizeReads(left: string, core: string, right: string)
    requires AllSpace(left) && AllSpace(right)
    requires core != "" ==> core[0] as int !in WHITE_SPACE && core[|core| - 1] as int !in WHITE_SPACE
    ensures var r := Normalize(left + core + right);
            |r| == |core| && forall i :: 0 <= i < |r| ==> Lowered(core[i], r[i])
  {
    TrimSpaceReads(left, core, right);
    hide TrimSpace, LowerChar, Lowered;
    forall i | 0 <= i < |core| ensures Lowered(core[i], LowerChar(core[i])) { LowerCharReads(core[i]); }
  }

  lemma LowerCharReads(c: char)
    ensures Lowered(c, LowerChar(c))
  {
  }

  lemma TrimSpaceReads(left: string, core: string, right: string)
    requires AllSpace(left) && AllSpace(right)
    requires core != "" ==> core[0] as int !in WHITE_SPACE && core[|core| - 1] as int !in WHITE_SPACE
    ensures TrimSpace(left + core + right) == core
  {
    assert left + core + right == left + (core + right);
    TrimLeftOff(left, core + right);
    if core == "" {
      assert right + "" == right && core + right == right;
      TrimLeftOff(right, "");
    } else {
      assert TrimLeft(core + right) == core + right;
      TrimRightOff(core, right);
    }
  }

  lemma {:induction false} TrimLeftOff(left: string, rest: string)
    requires AllSpace(left)
    ensures TrimLeft(left + rest) == TrimLeft(rest)
  {
    if left == "" {
      assert left + rest == rest;
    } else {
      assert (left + rest)[1..] == left[1..] + rest;
      TrimLeftOff(left[1..], rest);
    }
  }

  lemma {:induction false} TrimRightOff(rest: string, right: string)
    requires AllSpace(right)
    ensures TrimRight(rest + right) == TrimRight(rest)
  {
    if right == "" {
      assert rest + right == rest;
    } else {
      var n := |right| - 1;
      assert (rest + right)[..|rest + right| - 1] == rest + right[..n];
      TrimRightOff(rest, right[..n]);
    }
  }

  /** A name is valid exactly when it is 1 to 32 of these characters. */
  lemma ValidMatches(name: string)
    ensures Valid(name) <==>
            1 <= |name| <= 32 && forall i :: 0 <= i < |name| ==>
              name[i] in "abcdefghijklmnopqrstuvwxyz" || name[i] in "0123456789" || name[i] == '-'
  {
    forall c ensures ValidChar(c) <==> c in "abcdefghijklmnopqrstuvwxyz" || c in "0123456789" || c == '-' {
      Letters(c);
      Digits(c);
    }
    hide ValidChar;
  }

  lemma Letters(c: char)
    ensures 'a' <= c <= 'z' <==> c in "abcdefghijklmnopqrstuvwxyz"
  {
    var all := "abcdefghijklmnopqrstuvwxyz";
    assert forall i :: 0 <= i < 26 ==> all[i] as int == 97 + i;
    if 'a' <= c <= 'z' { assert all[c as int - 97] == c; }
  }

  lemma Digits(c: char)
    ensures '0' <= c <= '9' <==> c in "0123456789"
  {
    var all := "0123456789";
    assert forall i :: 0 <= i < 10 ==> all[i] as int == 48 + i;
    if '0' <= c <= '9' { assert all[c as int - 48] == c; }
  }

  /** A valid name is already normal, so distinct valid names derive distinct keys. */
  lemma ValidIsNormal(name: string)
    requires Valid(name)
    ensures Normalize(name) == name
  {
    NormalizeFixedPoints(name);
  }
}
