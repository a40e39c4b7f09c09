/**
  * The few JavaScript string built-ins the application relies on, written out with the
  * semantics the source depends on: `toLowerCase` (ASCII letters), `trim` and the `\s`
  * class, `includes`/`indexOf`, `lastIndexOf` with its clamped start position, `split`,
  * `join`, `replace` with a string pattern, `slice(0, n)` and the decimal rendering of a
  * non-negative integer (`Date.now().toString()`).
  */
module Strings {
  import opened Wrappers

  // ---------------------------------------------------------------- case

  function LowerChar(c: char): char {
    if 'A' <= c <= 'Z' then (c as int + 32) as char else c
  }

  function ToLower(s: string): (r: string)
    ensures |r| == |s|
    ensures forall i :: 0 <= i < |s| ==> r[i] == LowerChar(s[i])
  {
    seq(|s|, i requires 0 <= i < |s| => LowerChar(s[i]))
  }

  /** Lower-casing is idempotent and works character by character. */
  lemma ToLowerLaws(a: string, b: string)
    ensures ToLower(ToLower(a)) == ToLower(a)
    ensures ToLower(a + b) == ToLower(a) + ToLower(b)
  {
  }

  /** `toUpperCase` on ASCII letters. */
  function UpperChar(c: char): char {
    if 'a' <= c <= 'z' then (c as int - 32) as char else c
  }

  function ToUpper(s: string): (r: string)
    ensures |r| == |s|
    ensures forall i :: 0 <= i < |s| ==> r[i] == UpperChar(s[i])
  {
    seq(|s|, i requires 0 <= i < |s| => UpperChar(s[i]))
  }

  // ---------------------------------------------------------------- whitespace

  /** The ECMAScript WhiteSpace and LineTerminator characters: what `trim` strips and `\s` matches. */
  predicate IsSpace(c: char) {
    || c == ' ' || c == '\t' || c == '\n' || c == '\r' || c == '\U{0B}' || c == '\U{0C}'
    || c == '\U{A0}' || c == '\U{FEFF}' || c == '\U{1680}' || ('\U{2000}' <= c <= '\U{200A}')
    || c == '\U{2028}' || c == '\U{2029}' || c == '\U{202F}' || c == '\U{205F}' || c == '\U{3000}'
  }

  predicate IsBlank(s: string) {
    forall i :: 0 <= i < |s| ==> IsSpace(s[i])
  }

  /** Number of whitespace characters at the start of `s`. */
  function LeadingSpaces(s: string): (k: nat)
    ensures k <= |s|
    ensures forall i :: 0 <= i < k ==> IsSpace(s[i])
    ensures k < |s| ==> !IsSpace(s[k])
  {
    if |s| > 0 && IsSpace(s[0]) then 1 + LeadingSpaces(s[1..]) else 0
  }

  /** Number of whitespace characters at the end of `s`. */
  function TrailingSpaces(s: string): (k: nat)
    ensures k <= |s|
    ensures forall i :: |s| - k <= i < |s| ==> IsSpace(s[i])
    ensures k < |s| ==> !IsSpace(s[|s| - 1 - k])
  {
    if |s| > 0 && IsSpace(s[|s| - 1]) then 1 + TrailingSpaces(s[..|s| - 1]) else 0
  }

  /** `String.prototype.trim`. */
  function Trim(s: string): string {
    var t := s[LeadingSpaces(s)..];
    t[..|t| - TrailingSpaces(t)]
  }

  /** Trim removes exactly the surrounding whitespace: the result is empty iff the input is
      blank, and otherwise it is the slice of the input between two blank margins whose ends
      are not whitespace. */
  lemma TrimSpec(s: string)
    ensures Trim(s) == "" <==> IsBlank(s)
    ensures Trim(s) != "" ==> !IsSpace(Trim(s)[0]) && !IsSpace(Trim(s)[|Trim(s)| - 1])
    ensures var a := LeadingSpaces(s);
            var b := |s| - TrailingSpaces(s[a..]);
            a <= b <= |s| && Trim(s) == s[a..b] && IsBlank(s[..a]) && IsBlank(s[b..])
  {
    var a := LeadingSpaces(s);
    var t := s[a..];
    var k := TrailingSpaces(t);
    TrimMargins(s, a, t, k);
    if a < |s| {
      TrimEnds(s, a, t, k);
      assert !IsSpace(s[a]);
    } else {
      assert IsBlank(s);
    }
  }

  /** The trailing margin of the part after the leading one is blank in `s` as well. */
  lemma TrimMargins(s: string, a: nat, t: string, k: nat)
    requires a == LeadingSpaces(s) && t == s[a..] && k == TrailingSpaces(t)
    ensures a <= |s| - k && Trim(s) == s[a..|s| - k]
    ensures IsBlank(s[..a]) && IsBlank(s[|s| - k..])
  {
    var b := |s| - k;
    forall i | 0 <= i < |s| - b ensures IsSpace(s[b..][i]) {
      assert s[b..][i] == t[|t| - k + i];
    }
  }

  /** When something is left, it starts and ends with a non-space. */
  lemma TrimEnds(s: string, a: nat, t: string, k: nat)
    requires a == LeadingSpaces(s) && t == s[a..] && k == TrailingSpaces(t)
    requires a < |s|
    ensures Trim(s) != "" && !IsSpace(Trim(s)[0]) && !IsSpace(Trim(s)[|Trim(s)| - 1])
  {
    assert t[0] == s[a];
    assert !IsSpace(t[0]);
    assert k < |t|;
    assert Trim(s) == t[..|t| - k];
    assert Trim(s)[0] == t[0];
    assert Trim(s)[|Trim(s)| - 1] == t[|t| - 1 - k];
  }

  /** Trimming is idempotent. */
  lemma TrimIdempotent(s: string)
    ensures Trim(Trim(s)) == Trim(s)
  {
    TrimSpec(s);
    var r := Trim(s);
    TrimSpec(r);
    if r != "" {
      assert LeadingSpaces(r) == 0;
      assert TrailingSpaces(r) == 0;
    }
  }

  /** `s.replace(/\s+/g, ' ')`: every run of whitespace becomes one space. */
  function CollapseSpaces(s: string): (r: string)
    ensures |r| <= |s|
    ensures |r| > 0 <==> |s| > 0
    ensures |r| > 0 ==> (IsSpace(r[0]) <==> IsSpace(s[0]))
    ensures forall i :: 0 <= i < |r| && IsSpace(r[i]) ==> r[i] == ' '
    ensures forall i :: 0 <= i < |r| - 1 ==> !(IsSpace(r[i]) && IsSpace(r[i + 1]))
    decreases |s|
  {
    if s == [] then []
    else if IsSpace(s[0]) then [' '] + CollapseSpaces(s[LeadingSpaces(s)..])
    else [s[0]] + CollapseSpaces(s[1..])
  }

  /** Collapsing keeps every other character, and leaves a string without whitespace as it is. */
  lemma {:induction false} CollapseSpacesKeeps(s: string)
    ensures forall c :: !IsSpace(c) ==> (c in CollapseSpaces(s) <==> c in s)
    ensures (forall i :: 0 <= i < |s| ==> !IsSpace(s[i])) ==> CollapseSpaces(s) == s
    decreases |s|
  {
    if s != [] {
      if IsSpace(s[0]) {
        var k := LeadingSpaces(s);
        CollapseSpacesKeeps(s[k..]);
        assert s == s[..k] + s[k..];
        assert forall c :: !IsSpace(c) ==> c !in s[..k];
      } else {
        CollapseSpacesKeeps(s[1..]);
        assert s == [s[0]] + s[1..];
      }
    }
  }

  /** `s.replace(/x/g, y)` for single characters. */
  function ReplaceChar(s: string, x: char, y: char): (r: string)
    ensures |r| == |s|
    ensures forall i :: 0 <= i < |s| ==> r[i] == if s[i] == x then y else s[i]
  {
    seq(|s|, i requires 0 <= i < |s| => if s[i] == x then y else s[i])
  }

  // ---------------------------------------------------------------- search

  /** `p` occurs in `s` starting at index `j`. */
  predicate OccursAt(s: string, p: string, j: int) {
    0 <= j && j + |p| <= |s| && s[j..j + |p|] == p
  }

  /** Occurrences in `s[1..]` are the occurrences in `s` moved one place left. */
  lemma OccursShift(s: string, p: string)
    requires |s| > 0
    ensures forall j :: 1 <= j ==> (OccursAt(s, p, j) <==> OccursAt(s[1..], p, j - 1))
  {
    forall j | 1 <= j ensures OccursAt(s, p, j) <==> OccursAt(s[1..], p, j - 1) {
      if j + |p| <= |s| {
        var u, v := s[j..j + |p|], s[1..][j - 1..j - 1 + |p|];
        assert |u| == |v|;
        forall i | 0 <= i < |u| ensures u[i] == v[i] {
          assert u[i] == s[j + i];
          assert v[i] == s[1..][j - 1 + i];
        }
        assert u == v;
      }
    }
  }

  /** `String.prototype.indexOf`: the first index at which `p` occurs, if any. */
  function IndexOf(s: string, p: string): (r: Option<nat>)
    ensures r.Some? ==> OccursAt(s, p, r.value)
    ensures r.Some? ==> forall j :: 0 <= j < r.value ==> !OccursAt(s, p, j)
    ensures r.None? ==> forall j :: !OccursAt(s, p, j)
  {
    if |p| > |s| then None
    else if s[..|p|] == p then Some(0)
    else
      OccursShift(s, p);
      match IndexOf(s[1..], p)
      case None => None
      case Some(k) => Some(k + 1)
  }

  /** `String.prototype.includes`. */
  predicate Contains(s: string, p: string) {
    IndexOf(s, p).Some?
  }

  lemma OccursInSuffix(a: string, b: string, p: string, j: int)
    requires |a| <= j
    ensures OccursAt(a + b, p, j) <==> OccursAt(b, p, j - |a|)
  {
    if j + |p| <= |a + b| {
      assert (a + b)[j..j + |p|] == b[j - |a|..j - |a| + |p|];
    }
  }

  /** The search result is pinned down by where `p` occurs: the first occurrence ... */
  lemma IndexOfFirst(s: string, p: string, n: nat)
    requires OccursAt(s, p, n)
    requires forall j :: 0 <= j < n ==> !OccursAt(s, p, j)
    ensures IndexOf(s, p) == Some(n)
  {
  }

  /** ... or nothing when it does not occur. */
  lemma IndexOfNone(s: string, p: string)
    requires forall j :: !OccursAt(s, p, j)
    ensures IndexOf(s, p) == None
  {
  }

  /** A search over `a + b` that cannot match inside `a` finds what the search over `b`
      finds, shifted by `|a|`. */
  lemma IndexOfAfter(a: string, b: string, p: string)
    requires forall j :: 0 <= j < |a| ==> !OccursAt(a + b, p, j)
    ensures IndexOf(b, p).None? ==> IndexOf(a + b, p).None?
    ensures IndexOf(b, p).Some? ==> IndexOf(a + b, p) == Some(|a| + IndexOf(b, p).value)
  {
    if IndexOf(b, p).Some? {
      IndexOfAfterSome(a, b, p, IndexOf(b, p).value);
    } else {
      IndexOfAfterNone(a, b, p);
    }
  }

  lemma IndexOfAfterNone(a: string, b: string, p: string)
    requires forall j :: 0 <= j < |a| ==> !OccursAt(a + b, p, j)
    requires IndexOf(b, p).None?
    ensures IndexOf(a + b, p).None?
  {
    forall j ensures !OccursAt(a + b, p, j) {
      if j >= |a| {
        OccursInSuffix(a, b, p, j);
      }
    }
    IndexOfNone(a + b, p);
  }

  lemma {:induction false} IndexOfAfterSome(a: string, b: string, p: string, k: nat)
    requires forall j :: 0 <= j < |a| ==> !OccursAt(a + b, p, j)
    requires OccursAt(b, p, k)
    requires forall j :: 0 <= j < k ==> !OccursAt(b, p, j)
    ensures IndexOf(a + b, p) == Some(|a| + k)
  {
    var s := a + b;
    OccursInSuffix(a, b, p, |a| + k);
    assert OccursAt(s, p, |a| + k);
    NoEarlyInConcat(a, b, p, k);
    IndexOfFirst(s, p, |a| + k);
  }

  /** No match in `a + b` starts before `|a| + k` when none starts in `a` nor before `k` in `b`. */
  lemma NoEarlyInConcat(a: string, b: string, p: string, k: nat)
    requires forall j :: 0 <= j < |a| ==> !OccursAt(a + b, p, j)
    requires forall j :: 0 <= j < k ==> !OccursAt(b, p, j)
    ensures forall j :: 0 <= j < |a| + k ==> !OccursAt(a + b, p, j)
  {
    forall j | |a| <= j < |a| + k ensures !OccursAt(a + b, p, j) {
      NotInSuffix(a, b, p, j);
    }
  }

  lemma NotInSuffix(a: string, b: string, p: string, j: int)
    requires |a| <= j && !OccursAt(b, p, j - |a|)
    ensures !OccursAt(a + b, p, j)
  {
    OccursInSuffix(a, b, p, j);
  }

  /** A pattern with a character that `s` lacks does not occur in `s`. */
  lemma AbsentChar(s: string, p: string, c: char)
    requires c in p && c !in s
    ensures IndexOf(s, p) == None
  {
    forall j ensures !OccursAt(s, p, j) {
      if 0 <= j && j + |p| <= |s| {
        assert c !in s[j..j + |p|];
      }
    }
  }

  /** A string that starts with `p` finds it at 0. */
  lemma IndexOfPrefix(s: string, p: string)
    requires |p| <= |s| && s[..|p|] == p
    ensures IndexOf(s, p) == Some(0)
  {
    assert OccursAt(s, p, 0);
  }

  /** Containment is having an occurrence somewhere. */
  lemma ContainsIff(s: string, p: string)
    ensures Contains(s, p) <==> exists j :: OccursAt(s, p, j)
  {
  }

  /** What a string contains, any string extended on either side contains too. */
  lemma ContainsExtend(a: string, b: string, p: string)
    requires Contains(a, p)
    ensures Contains(a + b, p) && Contains(b + a, p)
  {
    var j := IndexOf(a, p).value;
    assert (a + b)[j..j + |p|] == a[j..j + |p|];
    assert OccursAt(a + b, p, j);
    OccursInSuffix(b, a, p, |b| + j);
    assert OccursAt(b + a, p, |b| + j);
  }

  /** If no character of `s` below `n + q` is `p[q]`, then `p` starts nowhere below `n`. */
  lemma NoEarlyMatch(s: string, p: string, n: int, q: nat)
    requires q < |p|
    requires forall i :: 0 <= i < n + q && i < |s| ==> s[i] != p[q]
    ensures forall j :: 0 <= j < n ==> !OccursAt(s, p, j)
  {
    forall j | 0 <= j < n ensures !OccursAt(s, p, j) {
      if j + |p| <= |s| {
        assert s[j..j + |p|][q] == s[j + q];
      }
    }
  }

  /** `String.prototype.lastIndexOf(c, from)` for a one-character pattern: the start position
      is clamped into `0 .. |s| - 1` (so a negative `from` still inspects index 0), and the
      result is -1 when nothing is found. */
  function LastIndexOfChar(s: string, c: char, from: int): (r: int)
    ensures -1 <= r < |s|
    ensures r >= 0 ==> s[r] == c
    ensures forall j :: r < j < |s| && j <= (if from < 0 then 0 else from) ==> s[j] != c
  {
    var start := if from < 0 then 0 else from;
    ScanBack(s, c, if start < |s| then start else |s| - 1)
  }

  function ScanBack(s: string, c: char, i: int): (r: int)
    requires -1 <= i < |s|
    ensures -1 <= r <= i
    ensures r >= 0 ==> s[r] == c
    ensures forall j :: r < j <= i ==> s[j] != c
    decreases i + 1
  {
    if i < 0 then -1 else if s[i] == c then i else ScanBack(s, c, i - 1)
  }

  // ---------------------------------------------------------------- split / join / replace

  /** `String.prototype.split` with a non-empty string separator. */
  function Split(s: string, sep: string): (r: seq<string>)
    requires sep != ""
    ensures |r| >= 1
    ensures IndexOf(s, sep).None? ==> r == [s]
    ensures IndexOf(s, sep).Some? ==> |r| >= 2 && r[0] == s[..IndexOf(s, sep).value]
    decreases |s|
  {
    match IndexOf(s, sep)
    case None => [s]
    case Some(i) => [s[..i]] + Split(s[i + |sep|..], sep)
  }

  /** `Array.prototype.join`. */
  function Join(parts: seq<string>, sep: string): string {
    if |parts| == 0 then ""
    else if |parts| == 1 then parts[0]
    else parts[0] + sep + Join(parts[1..], sep)
  }

  /** Joining the pieces of a split with the same separator gives back the string, and no
      piece contains the separator. */
  lemma {:induction false} SplitJoin(s: string, sep: string)
    requires sep != ""
    ensures Join(Split(s, sep), sep) == s
    ensures forall k :: 0 <= k < |Split(s, sep)| ==> !Contains(Split(s, sep)[k], sep)
    decreases |s|
  {
    match IndexOf(s, sep)
    case None =>
    case Some(i) =>
      var head, rest := s[..i], s[i + |sep|..];
      SplitJoin(rest, sep);
      SplitAt(s, sep, i);
      BeforeFirstLacks(s, sep, i);
      var pieces := Split(rest, sep);
      assert Join([head] + pieces, sep) == head + sep + Join(pieces, sep);
      assert forall k :: 1 <= k < |pieces| + 1 ==> ([head] + pieces)[k] == pieces[k - 1];
  }

  /** A string splits at its first separator into the text before it and the pieces of the
      text after it. */
  lemma SplitAt(s: string, sep: string, i: nat)
    requires sep != "" && IndexOf(s, sep) == Some(i)
    ensures i + |sep| <= |s|
    ensures s == s[..i] + sep + s[i + |sep|..]
    ensures Split(s, sep) == [s[..i]] + Split(s[i + |sep|..], sep)
  {
    assert s[i..i + |sep|] == sep;
  }

  /** The text before the first separator holds no separator. */
  lemma BeforeFirstLacks(s: string, sep: string, i: nat)
    requires sep != "" && IndexOf(s, sep) == Some(i)
    ensures !Contains(s[..i], sep)
  {
    var head := s[..i];
    if Contains(head, sep) {
      var j := IndexOf(head, sep).value;
      assert head[j..j + |sep|] == s[j..j + |sep|];
      assert OccursAt(s, sep, j);
    }
  }

  /** Splitting at a first separator that follows `a`. */
  lemma SplitFirst(a: string, b: string, sep: string)
    requires sep != ""
    requires forall j :: 0 <= j < |a| ==> !OccursAt(a + sep + b, sep, j)
    ensures Split(a + sep + b, sep) == [a] + Split(b, sep)
  {
    var s := a + sep + b;
    assert s == a + (sep + b);
    IndexOfPrefix(sep + b, sep);
    IndexOfAfter(a, sep + b, sep);
    assert s[..|a|] == a && s[|a| + |sep|..] == b;
  }

  /** A string lacking a character of the separator is one piece. */
  lemma SplitNone(s: string, sep: string, c: char)
    requires sep != "" && c in sep && c !in s
    ensures Split(s, sep) == [s]
  {
    AbsentChar(s, sep, c);
  }

  /** Splitting a join at a one-character separator that no part contains gives the parts
      back: the converse of SplitJoin. */
  lemma {:induction false} JoinSplit(parts: seq<string>, c: char)
    requires |parts| >= 1
    requires forall k :: 0 <= k < |parts| ==> c !in parts[k]
    ensures Split(Join(parts, [c]), [c]) == parts
  {
    if |parts| == 1 {
      SplitNone(parts[0], [c], c);
    } else {
      var a, b := parts[0], Join(parts[1..], [c]);
      JoinSplit(parts[1..], c);
      NoEarlyMatch(a + [c] + b, [c], |a|, 0);
      SplitFirst(a, b, [c]);
      assert parts == [a] + parts[1..];
    }
  }

  /** `String.prototype.replace(pattern, replacement)` with a string pattern: only the first
      occurrence is replaced. */
  function ReplaceFirst(s: string, pat: string, rep: string): (r: string)
    ensures IndexOf(s, pat).None? ==> r == s
    ensures IndexOf(s, pat).Some? ==>
              var i := IndexOf(s, pat).value;
              r == s[..i] + rep + s[i + |pat|..]
  {
    match IndexOf(s, pat)
    case None => s
    case Some(i) => s[..i] + rep + s[i + |pat|..]
  }

  // ---------------------------------------------------------------- slicing

  /** `s.slice(0, n)` / `s.substring(0, n)`. */
  function Take(s: string, n: nat): (r: string)
    ensures |r| == if |s| <= n then |s| else n
    ensures r == s[..|r|]
  {
    if |s| <= n then s else s[..n]
  }

  /** `a || b` for an optional string: absent and empty both fall back to `b`. */
  function Or(a: Option<string>, b: string): (r: string)
    ensures a.Some? && a.value != "" ==> r == a.value
    ensures a.None? || a.value == "" ==> r == b
  {
    if a.Some? && a.value != "" then a.value else b
  }

  // ---------------------------------------------------------------- numbers

  function DigitChar(d: nat): char
    requires d < 10
  {
    ('0' as int + d) as char
  }

  /** `n.toString()` for a non-negative integer. */
  function Decimal(n: nat): (r: string)
    ensures 1 <= |r|
    ensures n >= 10 ==> |r| >= 2
    ensures forall i :: 0 <= i < |r| ==> '0' <= r[i] <= '9'
  {
    if n < 10 then [DigitChar(n)] else Decimal(n / 10) + [DigitChar(n % 10)]
  }

  /** Distinct clock readings give distinct decimal ids. */
  lemma {:induction false} DecimalInjective(a: nat, b: nat)
    ensures Decimal(a) == Decimal(b) ==> a == b
  {
    if Decimal(a) == Decimal(b) {
      if a >= 10 && b >= 10 {
        var da, db := Decimal(a), Decimal(b);
        assert da[|da| - 1] == DigitChar(a % 10) && db[|db| - 1] == DigitChar(b % 10);
        assert a % 10 == b % 10;
        assert Decimal(a / 10) == da[..|da| - 1] == db[..|db| - 1] == Decimal(b / 10);
        DecimalInjective(a / 10, b / 10);
      }
    }
  }
}
