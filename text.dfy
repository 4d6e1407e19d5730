/**
 * The subset of Ruby's String and Integer behaviour that the two report
 * scripts rely on: `String#strip`, `String#split(/\s+/)`, `Integer(str)`
 * for decimal tokens, `Integer#to_s`, `"%Ns" % [x]` (right justification)
 * and `Array#join`.
 */
module Text {
  import opened Wrappers

  // ---------------------------------------------------------------------------
  // Whitespace, strip and split
  // ---------------------------------------------------------------------------

  /** The characters of Ruby's regexp class `\s`: space, \t, \n, \v, \f, \r. */
  predicate IsSpace(c: char) {
    c == ' ' || c == '\t' || c == '\n' || c == '\U{0B}' || c == '\U{0C}' || c == '\r'
  }

  /** The characters `String#strip` removes from either end: `\s` and NUL. */
  predicate IsStripped(c: char) {
    IsSpace(c) || c == '\0'
  }

  /** `s.lstrip`: drops the leading strip characters. */
  function StripLeft(s: string): (r: string)
    ensures |r| <= |s| && r == s[|s| - |r|..]
    ensures forall i :: 0 <= i < |s| - |r| ==> IsStripped(s[i])
    ensures r != [] ==> !IsStripped(r[0])
  {
    if s != [] && IsStripped(s[0]) then StripLeft(s[1..]) else s
  }

  /** `s.rstrip`: drops the trailing strip characters. */
  function StripRight(s: string): (r: string)
    ensures |r| <= |s| && r == s[..|r|]
    ensures forall i :: |r| <= i < |s| ==> IsStripped(s[i])
    ensures r != [] ==> !IsStripped(r[|r| - 1])
  {
    if s != [] && IsStripped(s[|s| - 1]) then StripRight(s[..|s| - 1]) else s
  }

  /** `s.strip`. */
  function Strip(s: string): string {
    StripRight(StripLeft(s))
  }

  /** The length of the run of non-space characters that starts `s`. */
  function WordLength(s: string): (n: nat)
    ensures n <= |s|
    ensures forall i :: 0 <= i < n ==> !IsSpace(s[i])
    ensures n < |s| ==> IsSpace(s[n])
  {
    if s == [] || IsSpace(s[0]) then 0 else 1 + WordLength(s[1..])
  }

  /** True when `w` is one field of a whitespace split: non-empty, no `\s` in it. */
  predicate IsWord(w: string) {
    w != [] && forall i :: 0 <= i < |w| ==> !IsSpace(w[i])
  }

  /** The maximal runs of non-space characters of `s`, in order. */
  function Words(s: string): (ws: seq<string>)
    ensures forall k :: 0 <= k < |ws| ==> IsWord(ws[k])
    ensures ws == [] <==> forall i :: 0 <= i < |s| ==> IsSpace(s[i])
    decreases |s|
  {
    if s == [] then []
    else if IsSpace(s[0]) then Words(s[1..])
    else
      var n := WordLength(s);
      [s[..n]] + Words(s[n..])
  }

  /**
   * `s.split(/\s+/)`: the fields between runs of whitespace. A string that
   * starts with whitespace yields an empty first field; trailing empty fields
   * are dropped, so an all-blank string yields no field at all.
   */
  function Split(s: string): seq<string> {
    var ws := Words(s);
    if ws == [] then [] else if IsSpace(s[0]) then [""] + ws else ws
  }

  /** `line.strip.split(/\s+/)`: the whitespace-separated tokens of a line. */
  function Tokens(line: string): seq<string> {
    Split(Strip(line))
  }

  /** After `strip` no field is empty: the tokens of a line are its words. */
  lemma TokensAreWords(line: string)
    ensures Tokens(line) == Words(Strip(line))
    ensures forall k :: 0 <= k < |Tokens(line)| ==> IsWord(Tokens(line)[k])
  {
    var s := Strip(line);
    assert s != [] ==> s == StripRight(StripLeft(line)) && s[0] == StripLeft(line)[0];
  }

  // ---------------------------------------------------------------------------
  // Decimal integers: Integer(str) and Integer#to_s
  // ---------------------------------------------------------------------------

  predicate IsDigit(c: char) { '0' <= c <= '9' }

  function DigitValue(c: char): (d: nat)
    requires IsDigit(c)
    ensures d < 10
  {
    c as int - '0' as int
  }

  function DigitChar(d: nat): (c: char)
    requires d < 10
    ensures IsDigit(c) && DigitValue(c) == d
  {
    ('0' as int + d) as char
  }

  predicate AllDigits(s: string) {
    forall i :: 0 <= i < |s| ==> IsDigit(s[i])
  }

  /** A canonical decimal numeral: one or more digits, no leading zero except "0" itself. */
  predicate IsNumeral(s: string) {
    s != [] && AllDigits(s) && (s[0] == '0' ==> |s| == 1)
  }

  /** The value of a string of decimal digits, most significant first. */
  function DigitsValue(s: string): nat
    requires AllDigits(s)
    decreases |s|
  {
    if s == [] then 0 else DigitsValue(s[..|s| - 1]) * 10 + DigitValue(s[|s| - 1])
  }

  /**
   * `Integer(tok)` restricted to decimal tokens: an optional `+` or `-`
   * followed by a canonical decimal numeral. Anything else is `None`, the
   * model of the `ArgumentError` Ruby raises.
   */
  function ParseInteger(tok: string): Option<int> {
    if tok != [] && (tok[0] == '+' || tok[0] == '-') then
      var digits := tok[1..];
      if IsNumeral(digits) then
        var magnitude: int := DigitsValue(digits);
        Some(if tok[0] == '-' then -magnitude else magnitude)
      else None
    else if IsNumeral(tok) then Some(DigitsValue(tok))
    else None
  }

  /** `n.to_s` for a natural number. */
  function ShowNat(n: nat): (s: string)
    ensures IsNumeral(s)
  {
    if n < 10 then [DigitChar(n)] else ShowNat(n / 10) + [DigitChar(n % 10)]
  }

  /** `n.to_s` for any integer: a minus sign before the magnitude when negative. */
  function ShowInt(n: int): (s: string)
    ensures IsWord(s)
    ensures n >= 0 ==> IsNumeral(s)
    ensures n < 0 ==> s[0] == '-' && IsNumeral(s[1..])
    decreases if n < 0 then 1 else 0
  {
    if n < 0 then "-" + ShowInt(-n) else ShowNat(n)
  }

  lemma {:induction false} DigitsOfShowNat(n: nat)
    ensures DigitsValue(ShowNat(n)) == n
  {
    if n >= 10 {
      DigitsOfShowNat(n / 10);
      var s := ShowNat(n);
      assert s[..|s| - 1] == ShowNat(n / 10);
    }
  }

  /** A numeral whose first digit is not zero denotes a positive number. */
  lemma {:induction false} LeadingDigitPositive(s: string)
    requires s != [] && AllDigits(s) && s[0] != '0'
    ensures DigitsValue(s) > 0
  {
    if |s| > 1 {
      LeadingDigitPositive(s[..|s| - 1]);
    }
  }

  /** Printing the value of a canonical numeral gives back the numeral. */
  lemma {:induction false} ShowNatOfDigits(s: string)
    requires IsNumeral(s)
    ensures ShowNat(DigitsValue(s)) == s
  {
    if |s| > 1 {
      var p := s[..|s| - 1];
      LeadingDigitPositive(p);
      ShowNatOfDigits(p);
      var n := DigitsValue(s);
      assert n / 10 == DigitsValue(p) && n % 10 == DigitValue(s[|s| - 1]);
      assert s == p + [s[|s| - 1]];
    }
  }

  /** `Integer(n.to_s) == n` for every integer. */
  lemma ParseShowInt(n: int)
    ensures ParseInteger(ShowInt(n)) == Some(n)
  {
    var s := ShowInt(n);
    if n < 0 {
      DigitsOfShowNat(-n);
      assert s[1..] == ShowInt(-n) == ShowNat(-n);
      assert s[0] == '-';
    } else {
      DigitsOfShowNat(n);
      assert s == ShowNat(n) && s[0] != '+' && s[0] != '-';
    }
  }

  /**
   * The decimal tokens the model accepts are exactly the printed integers,
   * optionally with a leading `+`, and `-0`.
   */
  lemma ParsedTokenIsPrinted(tok: string, n: int)
    requires ParseInteger(tok) == Some(n)
    ensures tok == ShowInt(n) || tok == "+" + ShowInt(n) || tok == "-0"
  {
    if tok[0] == '+' || tok[0] == '-' {
      ShowNatOfDigits(tok[1..]);
      assert tok == [tok[0]] + tok[1..];
    } else {
      ShowNatOfDigits(tok);
    }
  }

  // ---------------------------------------------------------------------------
  // Layout: "%Ns" % [x] and Array#join
  // ---------------------------------------------------------------------------

  function Spaces(n: nat): (s: string)
    ensures |s| == n && forall i :: 0 <= i < n ==> s[i] == ' '
  {
    seq(n, _ => ' ')
  }

  /** Dropping the first element removes one occurrence of it. */
  lemma MultisetTail<T>(a: seq<T>)
    requires a != []
    ensures multiset(a[1..]) == multiset(a) - multiset{a[0]}
  {
    assert a == [a[0]] + a[1..];
  }

  /** Concatenation regroups freely. */
  lemma AppendAssoc<T>(a: seq<T>, b: seq<T>, c: seq<T>)
    ensures a + (b + c) == (a + b) + c
  {
  }

  /** `"%<w>s" % [s]`: `s` right-justified with spaces to at least `w` characters. */
  function Rjust(s: string, w: nat): (r: string)
    ensures |r| == if |s| >= w then |s| else w
    ensures r[|r| - |s|..] == s
    ensures forall i :: 0 <= i < |r| - |s| ==> r[i] == ' '
  {
    if |s| >= w then s else Spaces(w - |s|) + s
  }

  /** `parts.join(sep)`. */
  function Join(parts: seq<string>, sep: string): string
    decreases |parts|
  {
    if parts == [] then ""
    else if |parts| == 1 then parts[0]
    else parts[0] + sep + Join(parts[1..], sep)
  }

  /**
   * Joining fields of one width `w` with a one-character separator puts
   * field k at offset k * (w + 1), right after a separator: the columns of
   * rows built this way line up.
   */
  lemma JoinFixedWidth(parts: seq<string>, sep: string, w: nat)
    requires parts != [] && |sep| == 1
    requires forall k :: 0 <= k < |parts| ==> |parts[k]| == w
    ensures |Join(parts, sep)| == |parts| * (w + 1) - 1
    ensures Join(parts, sep)[..w] == parts[0]
    ensures forall k :: 0 < k < |parts| ==> SeparatedAt(Join(parts, sep), ColumnStart(k, w), sep, parts[k])
  {
    JoinLength(parts, sep, w);
    forall k | 0 < k < |parts|
      ensures SeparatedAt(Join(parts, sep), ColumnStart(k, w), sep, parts[k])
    {
      JoinAt(parts, sep, w, k);
    }
  }

  /** `row` holds `sep` immediately followed by `field`, the field starting at offset `start`. */
  predicate SeparatedAt(row: string, start: int, sep: string, field: string) {
    |sep| <= start && start + |field| <= |row| && row[start - |sep| .. start + |field|] == sep + field
  }

  /** `s` begins with `prefix`. */
  predicate StartsWith(s: string, prefix: string) {
    |prefix| <= |s| && s[..|prefix|] == prefix
  }

  /** Where field k of a row of width-`w` fields joined by one character starts. */
  function ColumnStart(k: nat, w: nat): nat {
    k * (w + 1)
  }

  lemma ColumnStartStep(k: nat, w: nat, n: nat)
    requires 0 < k < n
    ensures ColumnStart(k, w) == ColumnStart(k - 1, w) + w + 1
    ensures ColumnStart(k, w) + w < n * (w + 1)
  {
    assert ColumnStart(k, w) == (k - 1) * (w + 1) + (w + 1);
    assert (k + 1) * (w + 1) <= n * (w + 1);
  }

  lemma {:induction false} JoinLength(parts: seq<string>, sep: string, w: nat)
    requires parts != [] && |sep| == 1
    requires forall k :: 0 <= k < |parts| ==> |parts[k]| == w
    ensures |Join(parts, sep)| == |parts| * (w + 1) - 1
    ensures Join(parts, sep)[..w] == parts[0]
    decreases |parts|
  {
    if |parts| > 1 {
      JoinLength(parts[1..], sep, w);
      assert |parts| * (w + 1) == (|parts| - 1) * (w + 1) + w + 1;
    }
  }

  lemma {:induction false} JoinAt(parts: seq<string>, sep: string, w: nat, k: nat)
    requires 0 < k < |parts| && |sep| == 1
    requires forall i :: 0 <= i < |parts| ==> |parts[i]| == w
    ensures ColumnStart(k, w) + w <= |Join(parts, sep)|
    ensures Join(parts, sep)[ColumnStart(k, w) - 1 .. ColumnStart(k, w) + w] == sep + parts[k]
    decreases k
  {
    var rest := parts[1..];
    var j := Join(parts, sep);
    var jr := Join(rest, sep);
    JoinLength(parts, sep, w);
    JoinLength(rest, sep, w);
    ColumnStartStep(k, w, |parts|);
    AppendAssoc(parts[0], sep, jr);
    assert j == parts[0] + (sep + jr);
    var off := ColumnStart(k, w);
    if k == 1 {
      SliceOfAppend(parts[0], sep + jr, off - 1, off + w);
      PrefixOfAppend(sep, jr, w);
      assert (sep + jr)[0..w + 1] == (sep + jr)[..|sep| + w];
    } else {
      JoinAt(rest, sep, w, k - 1);
      var off' := ColumnStart(k - 1, w);
      assert off == off' + w + 1;
      SliceOfAppend(parts[0] + sep, jr, off - 1, off + w);
    }
  }

  lemma SliceOfAppend<T>(p: seq<T>, r: seq<T>, lo: nat, hi: nat)
    requires |p| <= lo <= hi <= |p| + |r|
    ensures (p + r)[lo..hi] == r[lo - |p|..hi - |p|]
  {
  }

  /** `s` ends with `suffix`. */
  predicate EndsWith(s: string, suffix: string) {
    |suffix| <= |s| && s[|s| - |suffix|..] == suffix
  }

  /** Whatever comes before it, a text keeps its ending. */
  lemma EndsWithAppend(a: string, b: string, suffix: string)
    requires EndsWith(b, suffix)
    ensures EndsWith(a + b, suffix)
  {
    assert (a + b)[|a + b| - |suffix|..] == b[|b| - |suffix|..];
  }

  /** Right-justifying keeps the ending of the text. */
  lemma RjustEndsWith(s: string, w: nat, suffix: string)
    requires EndsWith(s, suffix)
    ensures EndsWith(Rjust(s, w), suffix)
  {
    if |s| < w {
      EndsWithAppend(Spaces(w - |s|), s, suffix);
    }
  }

  lemma PrefixOfAppend<T>(a: seq<T>, b: seq<T>, n: nat)
    requires n <= |b|
    ensures (a + b)[..|a| + n] == a + b[..n]
  {
  }


  // ---------------------------------------------------------------------------
  // String#<=>: lexicographic order on characters, a prefix first
  // ---------------------------------------------------------------------------

  /** `a <= b` under Ruby's string comparison. */
  predicate StrLe(a: string, b: string)
    decreases |a|
  {
    a == [] || (b != [] && (a[0] < b[0] || (a[0] == b[0] && StrLe(a[1..], b[1..]))))
  }

  lemma {:induction false} StrLeTotal(a: string, b: string)
    ensures StrLe(a, b) || StrLe(b, a)
    decreases |a|
  {
    if a != [] && b != [] && a[0] == b[0] {
      StrLeTotal(a[1..], b[1..]);
    }
  }

  lemma {:induction false} StrLeAntisymmetric(a: string, b: string)
    requires StrLe(a, b) && StrLe(b, a)
    ensures a == b
    decreases |a|
  {
    if a != [] {
      StrLeAntisymmetric(a[1..], b[1..]);
      assert a == [a[0]] + a[1..] && b == [b[0]] + b[1..];
    }
  }

  lemma {:induction false} StrLeTransitive(a: string, b: string, c: string)
    requires StrLe(a, b) && StrLe(b, c)
    ensures StrLe(a, c)
    decreases |a|
  {
    if a != [] && a[0] == b[0] && b[0] == c[0] {
      StrLeTransitive(a[1..], b[1..], c[1..]);
    }
  }
}
