/** String operations the converters rely on, written out over `seq<char>`.
    Each function names the JavaScript built-in it stands for. */
module Text {

  /** `s.startsWith(prefix)` */
  predicate StartsWith(s: string, prefix: string) {
    |prefix| <= |s| && s[..|prefix|] == prefix
  }

  /** True when `pattern` occurs in `s` starting at index `i`. */
  predicate OccursAt(s: string, pattern: string, i: nat) {
    i + |pattern| <= |s| && s[i..i + |pattern|] == pattern
  }

  /** `s.indexOf(pattern, from)`: the first occurrence at or after `from`, or -1. */
  function IndexOfFrom(s: string, pattern: string, from: nat): (r: int)
    ensures r == -1 || (from <= r && OccursAt(s, pattern, r))
    ensures r == -1 ==> forall i: nat :: from <= i ==> !OccursAt(s, pattern, i)
    ensures r != -1 ==> forall i: nat :: from <= i < r ==> !OccursAt(s, pattern, i)
    decreases |s| + 1 - from
  {
    if from + |pattern| > |s| then -1
    else if OccursAt(s, pattern, from) then from
    else IndexOfFrom(s, pattern, from + 1)
  }

  /** `s.indexOf(pattern)` */
  function IndexOf(s: string, pattern: string): int {
    IndexOfFrom(s, pattern, 0)
  }

  /** `s.replace(pattern, replacement)` with a string (not a regular expression)
      as the pattern: only the first occurrence is replaced. The `$`-patterns
      JavaScript interprets inside a replacement string are not modelled; the one
      replacement the converters use contains no `$`. */
  function ReplaceFirst(s: string, pattern: string, replacement: string): (r: string)
    ensures (forall i: nat :: !OccursAt(s, pattern, i)) ==> r == s
    ensures forall i: nat ::
      OccursAt(s, pattern, i) && (forall j: nat :: j < i ==> !OccursAt(s, pattern, j))
      ==> r == s[..i] + replacement + s[i + |pattern|..]
  {
    var i := IndexOf(s, pattern);
    if i == -1 then s else s[..i] + replacement + s[i + |pattern|..]
  }

  /** A string that starts with the pattern has that prefix replaced. */
  lemma ReplacePrefix(pattern: string, rest: string, replacement: string)
    ensures ReplaceFirst(pattern + rest, pattern, replacement) == replacement + rest
  {
    var s := pattern + rest;
    assert s[0..0 + |pattern|] == pattern;
    assert IndexOfFrom(s, pattern, 0) == 0;
    assert s[..0] == [] && s[|pattern|..] == rest;
    assert [] + replacement + rest == replacement + rest;
  }

  /** The characters the regular-expression `.` refuses to match (JavaScript
      line terminators). */
  predicate IsLineTerminator(c: char) {
    c == '\n' || c == '\r' || c == '\U{2028}' || c == '\U{2029}'
  }

  /** `/.json$/` matches `name` split as `prefix`, one character the dot
      accepts, and a final `json`. */
  predicate JsonSuffixMatch(name: string, prefix: string, c: char) {
    name == prefix + [c] + "json" && !IsLineTerminator(c)
  }

  /** `name.replace(/.json$/gu, '.yaml')`: the dot is unescaped, so any
      character other than a line terminator is replaced together with a final
      `json`; the anchor allows at most one match. */
  function ReplaceJsonExtension(name: string): (r: string)
    ensures forall prefix, c :: JsonSuffixMatch(name, prefix, c) ==> r == prefix + ".yaml"
    ensures (forall prefix, c :: !JsonSuffixMatch(name, prefix, c)) ==> r == name
  {
    JsonSuffixSplit(name);
    if |name| >= 5 && name[|name| - 4..] == "json" && !IsLineTerminator(name[|name| - 5])
    then name[..|name| - 5] + ".yaml"
    else name
  }

  /** A match can only split the name five characters from its end, and
      that split matches when the name ends that way. */
  lemma JsonSuffixSplit(name: string)
    ensures forall prefix, c :: JsonSuffixMatch(name, prefix, c) ==>
      |name| >= 5 && prefix == name[..|name| - 5] && c == name[|name| - 5] && name[|name| - 4..] == "json"
    ensures |name| >= 5 && name[|name| - 4..] == "json" && !IsLineTerminator(name[|name| - 5]) ==>
      JsonSuffixMatch(name, name[..|name| - 5], name[|name| - 5])
  {
    forall prefix, c | JsonSuffixMatch(name, prefix, c)
      ensures |name| >= 5 && prefix == name[..|name| - 5] && c == name[|name| - 5] && name[|name| - 4..] == "json"
    {
      assert |name| == |prefix| + 5;
      assert name[..|prefix|] == prefix;
      assert name[|prefix|] == c;
      assert name[|prefix| + 1..] == "json";
    }
    if |name| >= 5 && name[|name| - 4..] == "json" {
      assert name == name[..|name| - 5] + [name[|name| - 5]] + name[|name| - 4..];
    }
  }

  /** A file name ending in `.json` is renamed to end in `.yaml`. */
  lemma JsonFileRenamed(base: string)
    ensures ReplaceJsonExtension(base + ".json") == base + ".yaml"
  {
    assert JsonSuffixMatch(base + ".json", base, '.');
  }

  function DigitChar(d: nat): (c: char)
    requires d < 10
    ensures '0' <= c <= '9'
  {
    "0123456789"[d]
  }

  function DigitValue(c: char): nat {
    if '0' <= c <= '9' then (c as int - '0' as int) as nat else 0
  }

  /** `String(n)` for an array index: its decimal digits, no leading zeros. */
  function NatToString(n: nat): (s: string)
    ensures 1 <= |s|
    ensures forall i :: 0 <= i < |s| ==> '0' <= s[i] <= '9'
    decreases n
  {
    if n < 10 then [DigitChar(n)] else NatToString(n / 10) + [DigitChar(n % 10)]
  }

  /** Reads a run of decimal digits back into a number. */
  function ParseDigits(s: string): nat
    decreases |s|
  {
    if s == [] then 0 else 10 * ParseDigits(s[..|s| - 1]) + DigitValue(s[|s| - 1])
  }

  lemma DigitRoundTrip(d: nat)
    requires d < 10
    ensures DigitValue(DigitChar(d)) == d
  {
    var digits := "0123456789";
    assert digits[d] as int - '0' as int == d;
  }

  /** Decimal printing is undone by parsing, so distinct indices print as
      distinct keys. */
  lemma {:induction false} NatToStringRoundTrip(n: nat)
    ensures ParseDigits(NatToString(n)) == n
    decreases n
  {
    if n < 10 {
      DigitRoundTrip(n);
      assert NatToString(n)[..0] == [];
    } else {
      var s := NatToString(n);
      assert s[..|s| - 1] == NatToString(n / 10);
      NatToStringRoundTrip(n / 10);
      DigitRoundTrip(n % 10);
    }
  }

  lemma NatToStringInjective(m: nat, n: nat)
    requires m != n
    ensures NatToString(m) != NatToString(n)
  {
    NatToStringRoundTrip(m);
    NatToStringRoundTrip(n);
  }
}
