/** The string library calls the program leans on, over sequences of code points. */
module Text {

  datatype Option<+T> = None | Some(value: T)

  /** The code points Go's unicode.IsSpace accepts. */
  predicate IsSpace(c: char) {
    || c == ' ' || 0x09 as char <= c <= 0x0D as char
    || c == 0x85 as char || c == 0xA0 as char || c == 0x1680 as char
    || 0x2000 as char <= c <= 0x200A as char
    || c == 0x2028 as char || c == 0x2029 as char || c == 0x202F as char
    || c == 0x205F as char || c == 0x3000 as char
  }

  /** The first position from i on that is not blank. */
  function SkipBlanks(s: string, i: nat): (r: nat)
    requires i <= |s|
    ensures i <= r <= |s|
    decreases |s| - i
  {
    if i < |s| && IsSpace(s[i]) then SkipBlanks(s, i + 1) else i
  }

  /** The end of the text from i that is left when trailing blanks are dropped. */
  function DropBlanks(s: string, i: nat, n: nat): (r: nat)
    requires i <= n <= |s|
    ensures i <= r <= n
  {
    if i < n && IsSpace(s[n - 1]) then DropBlanks(s, i, n - 1) else n
  }

  function TrimSpace(s: string): string {
    var i := SkipBlanks(s, 0);
    s[i..DropBlanks(s, i, |s|)]
  }

  predicate Trimmed(s: string) {
    s != "" ==> !IsSpace(s[0]) && !IsSpace(s[|s| - 1])
  }

  lemma {:induction false} SkipBlanksMeaning(s: string, i: nat)
    requires i <= |s|
    ensures var r := SkipBlanks(s, i);
            (forall j | i <= j < r :: IsSpace(s[j])) && (r < |s| ==> !IsSpace(s[r]))
    decreases |s| - i
  {
    if i < |s| && IsSpace(s[i]) {
      SkipBlanksMeaning(s, i + 1);
    }
  }

  lemma {:induction false} DropBlanksMeaning(s: string, i: nat, n: nat)
    requires i <= n <= |s|
    ensures var r := DropBlanks(s, i, n);
            (forall j | r <= j < n :: IsSpace(s[j])) && (r > i ==> !IsSpace(s[r - 1]))
  {
    if i < n && IsSpace(s[n - 1]) {
      DropBlanksMeaning(s, i, n - 1);
    }
  }

  /** Trimming cuts a window out of the string and leaves blanks outside it. */
  lemma TrimSpaceWindow(s: string) returns (i: nat, n: nat)
    ensures i <= n <= |s| && TrimSpace(s) == s[i..n] && Trimmed(TrimSpace(s))
    ensures forall j | 0 <= j < i || n <= j < |s| :: IsSpace(s[j])
  {
    i := SkipBlanks(s, 0);
    n := DropBlanks(s, i, |s|);
    SkipBlanksMeaning(s, 0);
    DropBlanksMeaning(s, i, |s|);
  }

  /** TrimSpace leaves exactly the trimmed strings alone. */
  lemma TrimSpaceFixed(s: string)
    ensures TrimSpace(s) == s <==> Trimmed(s)
  {
    var i, n := TrimSpaceWindow(s);
  }

  function LowerChar(c: char): char {
    if 'A' <= c <= 'Z' then (c as int + 32) as char else c
  }

  function UpperChar(c: char): char {
    if 'a' <= c <= 'z' then (c as int - 32) as char else c
  }

  function ToLower(s: string): string {
    seq(|s|, i requires 0 <= i < |s| => LowerChar(s[i]))
  }

  function ToUpper(s: string): string {
    seq(|s|, i requires 0 <= i < |s| => UpperChar(s[i]))
  }

  predicate OccursAt(s: string, sub: string, i: nat) {
    i + |sub| <= |s| && s[i..i + |sub|] == sub
  }

  /** One differing character rules an occurrence out. */
  lemma Mismatch(s: string, sub: string, i: nat, k: nat)
    requires k < |sub| && i + k < |s| && s[i + k] != sub[k]
    ensures !OccursAt(s, sub, i)
  {
    if i + |sub| <= |s| {
      assert s[i..i + |sub|][k] == s[i + k];
    }
  }

  lemma OccursInSuffix(s: string, sub: string, n: nat, i: nat)
    requires n <= |s|
    ensures OccursAt(s[n..], sub, i) <==> OccursAt(s, sub, n + i)
  {
    if n + i + |sub| <= |s| {
      assert s[n..][i..i + |sub|] == s[n + i..n + i + |sub|];
    }
  }

  lemma OccursInPrefix(s: string, sub: string, n: nat, i: nat)
    requires n <= |s| && i + |sub| <= n
    ensures OccursAt(s[..n], sub, i) <==> OccursAt(s, sub, i)
  {
    assert s[..n][i..i + |sub|] == s[i..i + |sub|];
  }

  predicate Contains(s: string, sub: string) {
    exists i | 0 <= i <= |s| :: OccursAt(s, sub, i)
  }

  /** strings.Index: the first occurrence, if there is one. */
  function Index(s: string, sub: string): Option<nat> {
    IndexFrom(s, sub, 0)
  }

  function IndexFrom(s: string, sub: string, i: nat): (r: Option<nat>)
    requires i <= |s|
    ensures r.Some? ==> i <= r.value && OccursAt(s, sub, r.value) && forall j | i <= j < r.value :: !OccursAt(s, sub, j)
    ensures r.None? ==> forall j: nat | i <= j :: !OccursAt(s, sub, j)
    decreases |s| - i
  {
    if OccursAt(s, sub, i) then Some(i)
    else if i == |s| then None
    else IndexFrom(s, sub, i + 1)
  }

  /** strings.LastIndex for a single character. */
  function LastIndex(s: string, c: char): (r: Option<nat>)
    ensures r.Some? ==> r.value < |s| && s[r.value] == c && forall k | r.value < k < |s| :: s[k] != c
    ensures r.None? ==> c !in s
  {
    if s == "" then None
    else if s[|s| - 1] == c then Some(|s| - 1)
    else LastIndex(s[..|s| - 1], c)
  }

  predicate HasPrefix(s: string, p: string) {
    p <= s
  }

  function Digit(d: nat): char requires d < 10 {
    ('0' as int + d) as char
  }

  /** The %d verb on a natural number. */
  function Decimal(n: nat): (s: string)
    ensures s != "" && forall c | c in s :: '0' <= c <= '9'
  {
    if n < 10 then [Digit(n)] else Decimal(n / 10) + [Digit(n % 10)]
  }

  /** Distinct numbers print differently. */
  lemma {:induction false} DecimalInjective(m: nat, n: nat)
    requires Decimal(m) == Decimal(n)
    ensures m == n
  {
    var s, t := Decimal(m), Decimal(n);
    assert s[|s| - 1] == Digit(m % 10) && t[|t| - 1] == Digit(n % 10);
    if m >= 10 && n >= 10 {
      assert s[..|s| - 1] == Decimal(m / 10) && t[..|t| - 1] == Decimal(n / 10);
      DecimalInjective(m / 10, n / 10);
    }
  }

  predicate IsDigits(s: string) {
    forall i | 0 <= i < |s| :: '0' <= s[i] <= '9'
  }

  /** The number a digit string stands for. */
  function Value(s: string): nat
    requires IsDigits(s)
  {
    if s == "" then 0 else Value(s[..|s| - 1]) * 10 + (s[|s| - 1] as int - '0' as int)
  }

  /** A printed number stands for itself, without leading zeros. */
  lemma {:induction false} DecimalValue(n: nat)
    ensures IsDigits(Decimal(n)) && Value(Decimal(n)) == n && (n > 0 ==> Decimal(n)[0] != '0')
  {
    var s := Decimal(n);
    forall i | 0 <= i < |s| ensures '0' <= s[i] <= '9' {
      assert s[i] in s;
    }
    if n >= 10 {
      DecimalValue(n / 10);
      assert s[..|s| - 1] == Decimal(n / 10);
      assert s[0] == Decimal(n / 10)[0];
    }
  }
}
