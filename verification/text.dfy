/** The JavaScript string primitives the source relies on: the `\s`, `\d` and
    `\w` regular-expression classes, line terminators (for the `m` flag),
    `trim`, `indexOf`, `split`, `join` and number-to-string conversion.
    Strings are sequences of Unicode scalar values. */
module Text {
  import opened Wrappers

  /** Characters at which a multiline `^`/`$` matches and which `.` rejects. */
  predicate IsLineTerminator(c: char) {
    c == '\n' || c == '\r' || c == '\U{2028}' || c == '\U{2029}'
  }

  /** The JavaScript `\s` class; `String.prototype.trim` strips the same set. */
  predicate IsSpace(c: char) {
    c == '\t' || c == '\n' || c == '\U{000B}' || c == '\U{000C}' || c == '\r' || c == ' '
    || c == '\U{00A0}' || c == '\U{1680}' || ('\U{2000}' <= c <= '\U{200A}')
    || c == '\U{2028}' || c == '\U{2029}' || c == '\U{202F}' || c == '\U{205F}'
    || c == '\U{3000}' || c == '\U{FEFF}'
  }

  /** The JavaScript `\d` class (ASCII digits only). */
  predicate IsDigit(c: char) {
    '0' <= c <= '9'
  }

  /** The JavaScript `\w` class. */
  predicate IsWordChar(c: char) {
    ('a' <= c <= 'z') || ('A' <= c <= 'Z') || IsDigit(c) || c == '_'
  }

  datatype CharClass = Space | Digit | Word

  predicate InClass(c: char, cls: CharClass) {
    match cls
    case Space => IsSpace(c)
    case Digit => IsDigit(c)
    case Word => IsWordChar(c)
  }

  predicate AllIn(s: string, cls: CharClass) {
    forall k {:trigger InClass(s[k], cls)} :: 0 <= k < |s| ==> InClass(s[k], cls)
  }

  /** End of the longest run of `cls` characters starting at `i`: what a
      greedy `\s*`, `\d*` or `\w*` consumes. */
  function RunEnd(s: string, i: nat, cls: CharClass): (j: nat)
    requires i <= |s|
    ensures i <= j <= |s|
    ensures forall k {:trigger InClass(s[k], cls)} :: i <= k < j ==> InClass(s[k], cls)
    ensures j == |s| || !InClass(s[j], cls)
    decreases |s| - i
  {
    if i < |s| && InClass(s[i], cls) then RunEnd(s, i + 1, cls) else i
  }

  /** The run itself, as a string, lies in the class. */
  lemma RunSlice(s: string, i: nat, cls: CharClass)
    requires i <= |s|
    ensures AllIn(s[i..RunEnd(s, i, cls)], cls)
  {
    var j := RunEnd(s, i, cls);
    forall k | 0 <= k < j - i ensures InClass(s[i..j][k], cls) {
      assert s[i..j][k] == s[i + k];
    }
  }

  /** A run that is known to stop at `j` ends at `j`. */
  lemma RunEndAt(s: string, i: nat, j: nat, cls: CharClass)
    requires i <= j <= |s|
    requires forall k :: i <= k < j ==> InClass(s[k], cls)
    requires j == |s| || !InClass(s[j], cls)
    ensures RunEnd(s, i, cls) == j
  {
    // both j and RunEnd(s, i, cls) are the first index at or after i outside the class
  }

  /** Start of the longest run of whitespace ending at `j`. */
  function SpaceStart(s: string, j: nat): (i: nat)
    requires j <= |s|
    ensures i <= j
    ensures forall k :: i <= k < j ==> IsSpace(s[k])
    ensures i == 0 || !IsSpace(s[i - 1])
  {
    if j > 0 && IsSpace(s[j - 1]) then SpaceStart(s, j - 1) else j
  }

  /** With the `m` flag, `^` holds at the start and after a line terminator. */
  predicate LineStart(text: string, p: nat) {
    p == 0 || (p <= |text| && IsLineTerminator(text[p - 1]))
  }

  /** With the `m` flag, `$` holds at the end and before a line terminator. */
  predicate LineEnd(text: string, t: nat) {
    t == |text| || (t < |text| && IsLineTerminator(text[t]))
  }

  /** The largest `k` in `[lo, hi)` whose character is not a line terminator:
      where `.` can match once a whitespace run gives characters back. */
  function LastVisible(text: string, lo: nat, hi: nat): (r: Option<nat>)
    requires lo <= hi <= |text|
    ensures r.Some? ==> lo <= r.value < hi && !IsLineTerminator(text[r.value])
    ensures r.Some? ==> forall k :: r.value < k < hi ==> IsLineTerminator(text[k])
    ensures r.None? ==> forall k :: lo <= k < hi ==> IsLineTerminator(text[k])
    decreases hi - lo
  {
    if lo == hi then None
    else if !IsLineTerminator(text[hi - 1]) then Some(hi - 1)
    else LastVisible(text, lo, hi - 1)
  }

  /** `String.prototype.trim`. */
  function Trim(s: string): (r: string)
    ensures |r| <= |s|
    ensures r == "" || (!IsSpace(r[0]) && !IsSpace(r[|r| - 1]))
    ensures AllIn(s, Space) <==> r == ""
  {
    var a := RunEnd(s, 0, Space);
    var b := SpaceStart(s, |s|);
    if a < b then s[a..b] else ""
  }

  /** Trimming a string that neither starts nor ends with whitespace is the identity. */
  lemma TrimNoOp(s: string)
    requires s == "" || (!IsSpace(s[0]) && !IsSpace(s[|s| - 1]))
    ensures Trim(s) == s
  {
    if s != "" {
      RunEndAt(s, 0, 0, Space);
    }
  }

  /** Trimming only whitespace yields the empty string. */
  lemma TrimAllSpace(s: string)
    requires AllIn(s, Space)
    ensures Trim(s) == ""
  {
  }

  /** Trimming a string padded with whitespace on both sides. */
  lemma TrimPadded(pre: string, s: string, post: string)
    requires AllIn(pre, Space) && AllIn(post, Space)
    requires s != "" && !IsSpace(s[0]) && !IsSpace(s[|s| - 1])
    ensures Trim(pre + s + post) == s
  {
    var t := pre + s + post;
    forall k | 0 <= k < |pre| ensures InClass(t[k], Space) {
      assert InClass(pre[k], Space);
    }
    RunEndAt(t, 0, |pre|, Space);
    assert t[|pre| + |s| - 1] == s[|s| - 1];
    forall k | |pre| + |s| <= k < |t| ensures IsSpace(t[k]) {
      assert InClass(post[k - |pre| - |s|], Space);
    }
    SpaceStartAt(t, |pre| + |s|, |t|);
    assert t[|pre|..|pre| + |s|] == s;
  }

  lemma SpaceStartAt(s: string, i: nat, j: nat)
    requires 0 < i <= j <= |s|
    requires forall k :: i <= k < j ==> IsSpace(s[k])
    requires !IsSpace(s[i - 1])
    ensures SpaceStart(s, j) == i
    decreases j
  {
    if j > i {
      SpaceStartAt(s, i, j - 1);
    }
  }

  /** JavaScript truthiness of an optional string: present and non-empty. */
  predicate Truthy(o: Option<string>) {
    o.Some? && o.value != ""
  }

  predicate StartsWith(s: string, prefix: string) {
    |prefix| <= |s| && s[..|prefix|] == prefix
  }

  predicate OccursAt(s: string, sub: string, k: nat) {
    k + |sub| <= |s| && s[k..k + |sub|] == sub
  }

  predicate EndsWith(s: string, suffix: string) {
    |suffix| <= |s| && s[|s| - |suffix|..] == suffix
  }

  /** The middle part of a concatenation occurs right after the first part,
      which the whole starts with; the whole ends with the last part. */
  lemma ConcatParts(a: string, b: string, c: string)
    ensures OccursAt(a + b + c, b, |a|)
    ensures StartsWith(a + b + c, a) && StartsWith(a + b + c, a + b)
    ensures EndsWith(a + b + c, c) && EndsWith(a + b + c, b + c)
  {
    var s := a + b + c;
    assert s[|a|..|a| + |b|] == b;
    assert s[..|a|] == a;
    assert s[..|a| + |b|] == a + b;
    assert s[|s| - |c|..] == c;
    assert s[|s| - |b + c|..] == b + c;
  }

  ghost predicate Contains(s: string, sub: string) {
    exists k: nat :: OccursAt(s, sub, k)
  }

  lemma TwoParts(x: string, y: string)
    ensures OccursAt(x + y, x, 0) && OccursAt(x + y, y, |x|)
    ensures StartsWith(x + y, x) && EndsWith(x + y, y)
  {
    assert (x + y)[..|x|] == x;
    assert (x + y)[|x|..] == y;
    assert (x + y)[|x|..|x| + |y|] == y;
  }

  lemma OccursAtIndex(s: string, sub: string, k: nat, i: nat)
    requires OccursAt(s, sub, k) && i < |sub|
    ensures s[k + i] == sub[i]
  {
    assert s[k..k + |sub|][i] == s[k + i];
  }

  lemma OccursChars(s: string, sub: string, k: nat)
    requires OccursAt(s, sub, k)
    ensures forall i :: 0 <= i < |sub| ==> s[k + i] == sub[i]
  {
    forall i | 0 <= i < |sub| ensures s[k + i] == sub[i] {
      OccursAtIndex(s, sub, k, i);
    }
  }

  /** An occurrence inside an occurrence. */
  lemma OccursNested(s: string, mid: string, k: nat, sub: string, j: nat)
    requires OccursAt(s, mid, k) && OccursAt(mid, sub, j)
    ensures OccursAt(s, sub, k + j)
  {
    OccursChars(s, mid, k);
    OccursChars(mid, sub, j);
    assert s[k + j..k + j + |sub|] == sub;
  }

  /** An occurrence survives appending text after it. */
  lemma OccursExtend(x: string, y: string, sub: string, k: nat)
    requires OccursAt(x, sub, k)
    ensures OccursAt(x + y, sub, k)
  {
    assert (x + y)[k..k + |sub|] == x[k..k + |sub|];
  }

  /** A text that continues at `p` with a line, a line terminator and a rest. */
  lemma LineThenRest(text: string, p: nat, s: string, c: char, rest: string)
    requires p <= |text| && text[p..] == s + [c] + rest
    ensures OccursAt(text, s, p) && p + |s| < |text| && text[p + |s|] == c
    ensures text[p + |s| + 1..] == rest
  {
    assert text[p..][..|s|] == s;
    assert text[p..][|s|] == c;
    assert text[p + |s| + 1..] == text[p..][|s| + 1..];
  }

  /** Where each part of a six-part concatenation sits. */
  lemma SixParts(a: string, b: string, c: string, d: string, e: string, f: string)
    ensures var s := a + b + c + d + e + f;
      && StartsWith(s, a) && EndsWith(s, f)
      && OccursAt(s, b, |a|) && OccursAt(s, c, |a| + |b|) && OccursAt(s, d, |a| + |b| + |c|)
      && EndsWith(s, e + f)
      && (d == "" && e == "" ==> EndsWith(s, c + f))
  {
    var ab, abc, abcd, abcde := a + b, a + b + c, a + b + c + d, a + b + c + d + e;
    TwoParts(a, b);
    OccursExtend(ab, c, a, 0);
    OccursExtend(ab, c, b, |a|);
    TwoParts(ab, c);
    OccursExtend(abc, d, a, 0);
    OccursExtend(abc, d, b, |a|);
    OccursExtend(abc, d, c, |ab|);
    TwoParts(abc, d);
    OccursExtend(abcd, e, a, 0);
    OccursExtend(abcd, e, b, |a|);
    OccursExtend(abcd, e, c, |ab|);
    OccursExtend(abcd, e, d, |abc|);
    OccursExtend(abcde, f, a, 0);
    OccursExtend(abcde, f, b, |a|);
    OccursExtend(abcde, f, c, |ab|);
    OccursExtend(abcde, f, d, |abc|);
    TwoParts(abcde, f);
    ConcatParts(abcd, e, f);
    if d == "" && e == "" {
      assert abcd == abc;
      assert abcde == abc;
      ConcatParts(ab, c, f);
    }
  }

  /** `s.indexOf(sub, from)` for `from <= |s|`, with `None` for -1. */
  function IndexOf(s: string, sub: string, from: nat): (r: Option<nat>)
    requires from <= |s|
    ensures r.Some? ==> from <= r.value && OccursAt(s, sub, r.value)
    ensures r.Some? ==> forall k :: from <= k < r.value ==> !OccursAt(s, sub, k)
    ensures r.None? ==> forall k :: from <= k ==> !OccursAt(s, sub, k)
    decreases |s| - from
  {
    if from + |sub| > |s| then None
    else if s[from..from + |sub|] == sub then Some(from)
    else IndexOf(s, sub, from + 1)
  }

  function DigitChar(d: nat): (c: char)
    requires d < 10
    ensures IsDigit(c)
  {
    ['0', '1', '2', '3', '4', '5', '6', '7', '8', '9'][d]
  }

  /** Decimal rendering of a natural number, as template literals print it. */
  function NatToString(n: nat): (r: string)
    ensures r != "" && AllIn(r, Digit)
    decreases n
  {
    if n < 10 then [DigitChar(n)] else NatToString(n / 10) + [DigitChar(n % 10)]
  }

  /** Decimal rendering of an integer (a minus sign for negatives). */
  function IntToString(i: int): (r: string)
    ensures r != ""
    ensures i >= 0 <==> IsDigit(r[0])
  {
    if i < 0 then "-" + NatToString(-i)
    else
      var r := NatToString(i);
      assert InClass(r[0], Digit);
      r
  }

  /** `xs.join(sep)`. */
  function Join(xs: seq<string>, sep: string): string {
    if |xs| == 0 then ""
    else if |xs| == 1 then xs[0]
    else xs[0] + sep + Join(xs[1..], sep)
  }

  /** `s.indexOf(c)` for one character, with `None` for -1. */
  function FirstIndex(s: string, c: char): (r: Option<nat>)
    ensures r.Some? ==> r.value < |s| && s[r.value] == c
    ensures r.Some? ==> forall k :: 0 <= k < r.value ==> s[k] != c
    ensures r.None? ==> forall k :: 0 <= k < |s| ==> s[k] != c
  {
    if s == [] then None
    else if s[0] == c then Some(0)
    else match FirstIndex(s[1..], c)
      case None => None
      case Some(i) => Some(i + 1)
  }

  /** `s.split(c)` for a one-character separator: never empty; the pieces
      contain no separator. */
  function Split(s: string, c: char): (r: seq<string>)
    ensures |r| >= 1
    ensures forall i, k :: 0 <= i < |r| && 0 <= k < |r[i]| ==> r[i][k] != c
    decreases |s|
  {
    match FirstIndex(s, c)
    case None => [s]
    case Some(i) =>
      var rest := Split(s[i + 1..], c);
      var r := [s[..i]] + rest;
      assert forall j :: 1 <= j < |r| ==> r[j] == rest[j - 1];
      r
  }

  /** `split` and `join` on the same separator are inverse. */
  lemma {:induction false} JoinSplit(s: string, c: char)
    ensures Join(Split(s, c), [c]) == s
    decreases |s|
  {
    match FirstIndex(s, c)
    case None =>
    case Some(i) =>
      var rest := Split(s[i + 1..], c);
      JoinSplit(s[i + 1..], c);
      assert Split(s, c) == [s[..i]] + rest;
      assert Join([s[..i]] + rest, [c]) == s[..i] + [c] + Join(rest, [c]);
      assert s == s[..i] + [c] + s[i + 1..];
  }

  /** ASCII `toUpperCase` of one character. */
  function ToUpper(c: char): (u: char)
    ensures 'a' <= c <= 'z' ==> 'A' <= u <= 'Z'
    ensures !('a' <= c <= 'z') ==> u == c
  {
    if 'a' <= c <= 'z' then (c as int - 'a' as int + 'A' as int) as char else c
  }
}
