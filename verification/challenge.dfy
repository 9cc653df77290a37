/** The challenge string `generateRandomString` (index.js:9-18), with the
    bytes `crypto.getRandomValues` fills passed in, and an ASCII model of
    the comparison `checkCaptcha` makes (index.js:154-160). */
module Challenge {
  import opened Params

  /** The 32-symbol alphabet of line 10: no `0`, `O`, `1` or `I`. */
  function Alphabet(): string {
    "ABCDEFGHJKLMNPQRSTUVWXYZ23456789"
  }

  /** Symbol k of the alphabet, by the four runs it is made of:
      `A`-`H`, `J`-`N`, `P`-`Z` and `2`-`9`. */
  function AlphabetAt(k: nat): char
    requires k < 32
  {
    AlphabetCode(k) as char
  }

  function AlphabetCode(k: nat): int
    requires k < 32
  {
    if k < 8 then 'A' as int + k
    else if k < 13 then 'J' as int + (k - 8)
    else if k < 24 then 'P' as int + (k - 13)
    else '2' as int + (k - 24)
  }

  /** The symbols that may appear in a challenge: upper-case letters other
      than `I` and `O`, and digits other than `0` and `1`. */
  predicate InAlphabet(c: char) {
    ('A' <= c <= 'Z' && c != 'I' && c != 'O') || ('2' <= c <= '9')
  }

  /** The literal of line 10 is the four runs in order: 32 symbols, in
      strictly increasing order (so all different), each one an alphabet
      symbol and none of them `0`, `O`, `1` or `I`. */
  lemma AlphabetShape()
    ensures |Alphabet()| == 32
    ensures forall k :: 0 <= k < 32 ==> Alphabet()[k] == AlphabetAt(k)
    ensures forall k :: 0 <= k < 32 ==> InAlphabet(AlphabetAt(k))
    ensures forall i, j :: 0 <= i < j < 32 ==> AlphabetAt(i) != AlphabetAt(j)
  {
  }

  /** `generateRandomString(bytes.length)`: one character per byte, chosen
      by the byte modulo the alphabet size; so the result has the requested
      length and only alphabet symbols. */
  method RandomString(bytes: seq<Byte>) returns (s: string)
    ensures |s| == |bytes|
    ensures forall i :: 0 <= i < |s| ==> s[i] == Alphabet()[bytes[i] % |Alphabet()|]
    ensures forall i :: 0 <= i < |s| ==> InAlphabet(s[i])
    ensures forall i :: 0 <= i < |s| ==> s[i] != '0' && s[i] != 'O' && s[i] != '1' && s[i] != 'I'
  {
    AlphabetShape();
    var chars := Alphabet();
    s := "";
    var i := 0;
    while i < |bytes|
      invariant 0 <= i <= |bytes|
      invariant |s| == i
      invariant forall k :: 0 <= k < i ==> s[k] == chars[bytes[k] % |chars|]
    {
      s := s + [chars[bytes[i] % |chars|]];
      i := i + 1;
    }
  }

  /** Number of byte values below `n` that select alphabet position `k`. */
  function Preimages(k: nat, n: nat): nat {
    if n == 0 then 0 else Preimages(k, n - 1) + (if (n - 1) % 32 == k then 1 else 0)
  }

  lemma {:induction false} PreimagesPartial(k: nat, m: nat, j: nat)
    requires k < 32 && j <= 32
    ensures Preimages(k, 32 * m + j) == m + (if k < j then 1 else 0)
    decreases m, j
  {
    if j == 0 {
      if m > 0 {
        PreimagesPartial(k, m - 1, 32);
      }
    } else {
      PreimagesPartial(k, m, j - 1);
      assert (32 * m + j - 1) % 32 == j - 1;
    }
  }

  /** No modulo bias: 256 is a multiple of 32, so each symbol is selected
      by exactly 8 of the 256 byte values, and a uniform byte gives a
      uniform symbol. */
  lemma NoModuloBias(k: nat)
    requires k < |Alphabet()|
    ensures Preimages(k, 256) == 256 / |Alphabet()|
  {
    PreimagesPartial(k, 8, 0);
  }

  /** The whitespace JavaScript's `trim` removes, restricted to ASCII. */
  predicate IsSpace(c: char) {
    c == ' ' || c == '\t' || c == '\n' || c == '\r' || c == '\U{000B}' || c == '\U{000C}'
  }

  function TrimStart(s: string): string {
    if |s| > 0 && IsSpace(s[0]) then TrimStart(s[1..]) else s
  }

  function TrimEnd(s: string): string {
    if |s| > 0 && IsSpace(s[|s| - 1]) then TrimEnd(s[..|s| - 1]) else s
  }

  /** `String.prototype.trim` on ASCII text. */
  function Trim(s: string): string {
    TrimEnd(TrimStart(s))
  }

  function UpperChar(c: char): char {
    if 'a' <= c <= 'z' then (c as int - 32) as char else c
  }

  /** `String.prototype.toUpperCase` on ASCII text. */
  function ToUpper(s: string): (r: string)
    ensures |r| == |s|
    ensures forall i :: 0 <= i < |s| ==> r[i] == UpperChar(s[i])
  {
    if |s| == 0 then "" else [UpperChar(s[0])] + ToUpper(s[1..])
  }

  /** The test of line 160 on the trimmed, upper-cased input. */
  predicate Accepts(input: string, word: string) {
    ToUpper(Trim(input)) == word
  }

  lemma {:induction false} TrimStartSpaces(lead: string, v: string)
    requires forall i :: 0 <= i < |lead| ==> IsSpace(lead[i])
    requires |v| > 0 && !IsSpace(v[0])
    ensures TrimStart(lead + v) == v
    decreases |lead|
  {
    if |lead| > 0 {
      assert (lead + v)[1..] == lead[1..] + v;
      TrimStartSpaces(lead[1..], v);
    } else {
      assert lead + v == v;
    }
  }

  lemma {:induction false} TrimEndSpaces(v: string, trail: string)
    requires forall i :: 0 <= i < |trail| ==> IsSpace(trail[i])
    requires |v| > 0 && !IsSpace(v[|v| - 1])
    ensures TrimEnd(v + trail) == v
    decreases |trail|
  {
    if |trail| > 0 {
      assert (v + trail)[..|v + trail| - 1] == v + trail[..|trail| - 1];
      TrimEndSpaces(v, trail[..|trail| - 1]);
    } else {
      assert v + trail == v;
    }
  }

  /** Trimming removes exactly the padding around a word that neither
      starts nor ends with whitespace. */
  lemma TrimPadded(lead: string, v: string, trail: string)
    requires forall i :: 0 <= i < |lead| ==> IsSpace(lead[i])
    requires forall i :: 0 <= i < |trail| ==> IsSpace(trail[i])
    requires |v| > 0 && !IsSpace(v[0]) && !IsSpace(v[|v| - 1])
    ensures Trim(lead + v + trail) == v
  {
    assert lead + v + trail == lead + (v + trail);
    assert (v + trail)[0] == v[0];
    TrimStartSpaces(lead, v + trail);
    TrimEndSpaces(v, trail);
  }

  /** A character that upper-cases to an alphabet symbol is no whitespace. */
  lemma UpperOfAlphabetNotSpace(c: char)
    requires InAlphabet(UpperChar(c))
    ensures !IsSpace(c)
  {
  }

  /** A visitor who types the challenge in any mix of letter cases, with
      any ASCII whitespace around it, is accepted. */
  lemma AcceptsAnyCase(word: string, typed: string, lead: string, trail: string)
    requires |word| > 0 && forall i :: 0 <= i < |word| ==> InAlphabet(word[i])
    requires ToUpper(typed) == word
    requires forall i :: 0 <= i < |lead| ==> IsSpace(lead[i])
    requires forall i :: 0 <= i < |trail| ==> IsSpace(trail[i])
    ensures Accepts(lead + typed + trail, word)
  {
    UpperOfAlphabetNotSpace(typed[0]);
    UpperOfAlphabetNotSpace(typed[|typed| - 1]);
    TrimPadded(lead, typed, trail);
  }

  /** The comparison on two concrete inputs: a lower-case entry with a
      trailing space passes, a different symbol fails. */
  lemma ComparisonExamples()
    ensures Accepts("kx9p2 ", "KX9P2")
    ensures !Accepts("KX9P3", "KX9P2")
  {
    AcceptsAnyCase("KX9P2", "kx9p2", "", " ");
    assert "" + "kx9p2" + " " == "kx9p2 ";
    assert Trim("KX9P3") == "KX9P3";
    assert ToUpper("KX9P3")[4] == '3';
  }
}
