/**
 * Values shared by every part of the model: an optional value, the HTTP
 * outcome of a route handler, the two ways JavaScript spells a numeric id,
 * and the string operations the backend and the React client use
 * (trim, split/join, first-occurrence replace, de-duplication, ASCII
 * upper-casing).
 */
module Common {

  datatype Option<T> = None | Some(value: T) {
    function GetOr(default: T): T {
      if Some? then value else default
    }
  }

  /** The outcome of one Express route handler. */
  datatype Response<T> =
    | Ok(value: T)        // 200 with a JSON body
    | Created(value: T)   // 201 with a JSON body
    | BadRequest          // 400
    | Unauthorized        // 401
    | Forbidden           // 403
    | NotFound            // 404
    | ServerError         // 500 from the handler's catch block
    | NoResponse          // the handler threw past its catch block; the request is never answered
  {
    function Code(): int {
      match this
      case Ok(_) => 200
      case Created(_) => 201
      case BadRequest => 400
      case Unauthorized => 401
      case Forbidden => 403
      case NotFound => 404
      case ServerError => 500
      case NoResponse => 0
    }

    predicate Success() {
      Ok? || Created?
    }
  }

  /**
   * A user id as JavaScript holds it: a number (from a JSON body, from
   * `req.user.id`) or the decimal text of that number (from a route
   * parameter, or from splitting a GROUP_CONCAT result).
   */
  datatype JsId = Num(n: int) | Text(n: int)

  /** `===`: a number and a string are never strictly equal. */
  predicate StrictEq(a: JsId, b: JsId) {
    (a.Num? == b.Num?) && a.n == b.n
  }

  /** `==`: the string is converted to a number before comparing. */
  predicate LooseEq(a: JsId, b: JsId) {
    a.n == b.n
  }

  lemma StrictNeverMatchesAcrossTypes(a: JsId, b: JsId)
    requires a.Num? != b.Num?
    ensures !StrictEq(a, b)
    ensures LooseEq(a, b) <==> a.n == b.n
  {
  }

  // ---------------------------------------------------------------------
  // Whitespace and trimming (String.prototype.trim, validator.js `trim()`)
  // ---------------------------------------------------------------------

  /** The characters JavaScript's `\s` and `trim` treat as white space. */
  predicate IsSpace(c: char) {
    c == ' ' || ('\t' <= c <= '\r') || c == '\U{00A0}' || c == '\U{1680}' || ('\U{2000}' <= c <= '\U{200A}')
    || ('\U{2028}' <= c <= '\U{2029}') || c == '\U{202F}' || c == '\U{205F}' || c == '\U{3000}' || c == '\U{FEFF}'
  }

  predicate IsBlank(s: string) {
    forall i :: 0 <= i < |s| ==> IsSpace(s[i])
  }

  function TrimStart(s: string): (r: string)
    ensures |r| <= |s|
  {
    if s != [] && IsSpace(s[0]) then TrimStart(s[1..]) else s
  }

  /** TrimStart drops the leading white space and nothing else. */
  lemma {:induction false} TrimStartShape(s: string)
    ensures var r := TrimStart(s);
      && r == s[|s| - |r|..]
      && (r == [] || !IsSpace(r[0]))
      && forall i :: 0 <= i < |s| - |r| ==> IsSpace(s[i])
    decreases |s|
  {
    if s != [] && IsSpace(s[0]) {
      TrimStartShape(s[1..]);
    }
  }

  function TrimEnd(s: string): (r: string)
    ensures |r| <= |s|
  {
    if s != [] && IsSpace(s[|s| - 1]) then TrimEnd(s[..|s| - 1]) else s
  }

  /** TrimEnd drops the trailing white space and nothing else. */
  lemma {:induction false} TrimEndShape(s: string)
    ensures var r := TrimEnd(s);
      && r == s[..|r|]
      && (r == [] || !IsSpace(r[|r| - 1]))
      && forall i :: |r| <= i < |s| ==> IsSpace(s[i])
    decreases |s|
  {
    if s != [] && IsSpace(s[|s| - 1]) {
      TrimEndShape(s[..|s| - 1]);
    }
  }

  /** `s.trim()` */
  function Trim(s: string): (r: string)
    ensures |r| <= |s|
  {
    TrimEnd(TrimStart(s))
  }

  /** The trimmed string neither starts nor ends with white space, and is empty exactly for a blank string. */
  lemma TrimShape(s: string)
    ensures var r := Trim(s);
      && (r == [] || (!IsSpace(r[0]) && !IsSpace(r[|r| - 1])))
      && (r == [] <==> IsBlank(s))
  {
    var t := TrimStart(s);
    TrimStartShape(s);
    TrimEndShape(t);
    var r := TrimEnd(t);
    if r != [] {
      assert r[0] == t[0];
    }
    assert t == [] ==> IsBlank(s);
    assert IsBlank(s) ==> t == [];
  }

  lemma TrimIdempotent(s: string)
    ensures Trim(Trim(s)) == Trim(s)
  {
    var t := Trim(s);
    TrimShape(s);
    if t != [] {
      assert TrimStart(t) == t;
      assert TrimEnd(t) == t;
    }
  }

  // ---------------------------------------------------------------------
  // Searching, replacing, splitting and joining
  // ---------------------------------------------------------------------

  predicate OccursAt(s: string, pat: string, j: int) {
    0 <= j && j + |pat| <= |s| && s[j..j + |pat|] == pat
  }

  /** The first index at or after `from` where `pat` occurs in `s`. */
  function IndexOfFrom(s: string, pat: string, from: nat): (r: Option<nat>)
    requires from <= |s|
    ensures r.Some? ==> from <= r.value && OccursAt(s, pat, r.value)
    ensures r.Some? ==> forall j :: from <= j < r.value ==> !OccursAt(s, pat, j)
    ensures r.None? ==> forall j :: from <= j ==> !OccursAt(s, pat, j)
    decreases |s| - from
  {
    if from + |pat| > |s| then None
    else if s[from..from + |pat|] == pat then Some(from)
    else if from == |s| then None
    else IndexOfFrom(s, pat, from + 1)
  }

  /** `s.indexOf(pat)`, with -1 modelled as None. */
  function IndexOf(s: string, pat: string): (r: Option<nat>)
    ensures r.Some? ==> OccursAt(s, pat, r.value)
    ensures r.Some? ==> forall j :: 0 <= j < r.value ==> !OccursAt(s, pat, j)
    ensures r.None? ==> forall j :: !OccursAt(s, pat, j)
  {
    IndexOfFrom(s, pat, 0)
  }

  /** `s.replace(pat, rep)` with a string pattern: only the FIRST occurrence is replaced. */
  function ReplaceFirst(s: string, pat: string, rep: string): (r: string)
    ensures IndexOf(s, pat).None? ==> r == s
    ensures IndexOf(s, pat).Some? ==>
      var i := IndexOf(s, pat).value; r == s[..i] + rep + s[i + |pat|..]
  {
    match IndexOf(s, pat)
    case None => s
    case Some(i) => s[..i] + rep + s[i + |pat|..]
  }

  /** `s.split(sep)` for a non-empty string separator. */
  function Split(s: string, sep: string): (r: seq<string>)
    requires |sep| > 0
    ensures |r| >= 1
    decreases |s|
  {
    match IndexOf(s, sep)
    case None => [s]
    case Some(i) => [s[..i]] + Split(s[i + |sep|..], sep)
  }

  /** `parts.join(sep)` */
  function Join(parts: seq<string>, sep: string): (r: string)
    ensures |parts| == 1 ==> r == parts[0]
    ensures parts == [] ==> r == []
  {
    if parts == [] then []
    else if |parts| == 1 then parts[0]
    else parts[0] + sep + Join(parts[1..], sep)
  }

  lemma JoinCons(head: string, tail: seq<string>, sep: string)
    requires |tail| >= 1
    ensures Join([head] + tail, sep) == head + sep + Join(tail, sep)
  {
    assert ([head] + tail)[1..] == tail;
  }

  lemma SplitAt(s: string, sep: string, i: nat)
    requires |sep| > 0
    requires IndexOf(s, sep) == Some(i)
    ensures s == s[..i] + sep + s[i + |sep|..]
    ensures Split(s, sep) == [s[..i]] + Split(s[i + |sep|..], sep)
  {
    var j := i + |sep|;
    assert s[i..j] == sep by {
      assert OccursAt(s, sep, i);
    }
    assert s == s[..i] + s[i..j] + s[j..] by {
      ThreeParts(s, i, j);
    }
  }

  lemma ThreeParts<T>(a: seq<T>, i: nat, j: nat)
    requires i <= j <= |a|
    ensures a == a[..i] + a[i..j] + a[j..]
  {
    assert a[..j] == a[..i] + a[i..j];
    assert a == a[..j] + a[j..];
  }

  /** Joining the pieces of a split restores the string. */
  lemma {:induction false} JoinSplit(s: string, sep: string)
    requires |sep| > 0
    ensures Join(Split(s, sep), sep) == s
    decreases |s|
  {
    match IndexOf(s, sep)
    case None =>
    case Some(i) =>
      var rest := s[i + |sep|..];
      SplitAt(s, sep, i);
      JoinCons(s[..i], Split(rest, sep), sep);
      JoinSplit(rest, sep);
  }

  /** A string in which `sep` does not occur splits into itself alone. */
  lemma SplitNoSeparator(s: string, sep: string)
    requires |sep| > 0
    requires forall j :: !OccursAt(s, sep, j)
    ensures Split(s, sep) == [s]
  {
  }

  /** Every space replaced by an underscore, character by character. */
  function SpacesToUnderscores(name: string): (r: string)
    ensures |r| == |name|
    ensures forall i :: 0 <= i < |r| ==> r[i] == (if name[i] == ' ' then '_' else name[i])
  {
    if name == [] then []
    else [if name[0] == ' ' then '_' else name[0]] + SpacesToUnderscores(name[1..])
  }

  lemma SpacesToUnderscoresAppend(a: string, b: string)
    ensures SpacesToUnderscores(a + b) == SpacesToUnderscores(a) + SpacesToUnderscores(b)
  {
    var l := SpacesToUnderscores(a + b);
    var r := SpacesToUnderscores(a) + SpacesToUnderscores(b);
    assert |l| == |r|;
    forall j | 0 <= j < |l| ensures l[j] == r[j] {
      if j >= |a| {
        assert (a + b)[j] == b[j - |a|];
      }
    }
  }

  lemma NoSpaceBefore(name: string, i: nat)
    requires IndexOf(name, " ") == Some(i)
    ensures SpacesToUnderscores(name[..i]) == name[..i]
  {
    var p := name[..i];
    forall j | 0 <= j < i ensures p[j] != ' ' {
      assert !OccursAt(name, " ", j);
      assert name[j..j + 1] == [name[j]];
    }
  }

  lemma NoSpaceAtAll(name: string)
    requires IndexOf(name, " ").None?
    ensures SpacesToUnderscores(name) == name
  {
    forall j | 0 <= j < |name| ensures name[j] != ' ' {
      assert !OccursAt(name, " ", j);
      assert name[j..j + 1] == [name[j]];
    }
  }

  /** `name.split(' ').join('_')` replaces every space, not only the first. */
  lemma {:induction false} SplitJoinReplacesAllSpaces(name: string)
    ensures Join(Split(name, " "), "_") == SpacesToUnderscores(name)
    decreases |name|
  {
    match IndexOf(name, " ")
    case None =>
      NoSpaceAtAll(name);
    case Some(i) =>
      var head, rest := name[..i], name[i + 1..];
      SplitAt(name, " ", i);
      assert name == head + " " + rest;
      assert SpacesToUnderscores(" ") == "_";
      calc {
        Join(Split(name, " "), "_");
        { JoinCons(head, Split(rest, " "), "_"); }
        head + "_" + Join(Split(rest, " "), "_");
        { SplitJoinReplacesAllSpaces(rest); NoSpaceBefore(name, i); }
        SpacesToUnderscores(head) + SpacesToUnderscores(" ") + SpacesToUnderscores(rest);
        { SpacesToUnderscoresAppend(head, " "); }
        SpacesToUnderscores(head + " ") + SpacesToUnderscores(rest);
        { SpacesToUnderscoresAppend(head + " ", rest); }
        SpacesToUnderscores(head + " " + rest);
      }
  }

  // ---------------------------------------------------------------------
  // Sets spread into arrays, and upper-casing
  // ---------------------------------------------------------------------

  predicate NoDup<T(==)>(s: seq<T>) {
    forall i, j :: 0 <= i < j < |s| ==> s[i] != s[j]
  }

  /** `[...new Set(s)]`: the first occurrence of each element, in order. */
  function Dedup<T(==,!new)>(s: seq<T>): (r: seq<T>)
    ensures NoDup(r)
    ensures forall x :: x in r <==> x in s
    ensures |r| <= |s|
    ensures s != [] ==> r != [] && r[0] == s[0]
    decreases |s|
  {
    if s == [] then []
    else
      var d := Dedup(s[..|s| - 1]);
      if s[|s| - 1] in d then d else d + [s[|s| - 1]]
  }

  /** A sequence without duplicates is its own de-duplication. */
  lemma {:induction false} DedupOfDistinct<T(!new)>(s: seq<T>)
    requires NoDup(s)
    ensures Dedup(s) == s
    decreases |s|
  {
    if s != [] {
      var init := s[..|s| - 1];
      assert NoDup(init);
      DedupOfDistinct(init);
      assert s[|s| - 1] !in init;
      assert init + [s[|s| - 1]] == s;
    }
  }

  /** A sequence without duplicates has as many distinct elements as entries. */
  lemma DistinctCard<T>(s: seq<T>)
    requires NoDup(s)
    ensures |set x | x in s| == |s|
  {
    if s != [] {
      var init := s[..|s| - 1];
      assert NoDup(init);
      DistinctCard(init);
      assert (set x | x in s) == (set x | x in init) + {s[|s| - 1]};
      assert s[|s| - 1] !in init;
    }
  }

  /** In a sequence without duplicates nothing occurs twice. */
  lemma NoDupCount<T>(s: seq<T>, x: T)
    requires NoDup(s)
    ensures multiset(s)[x] <= 1
  {
    if s != [] {
      assert s == [s[0]] + s[1..];
      assert NoDup(s[1..]);
      NoDupCount(s[1..], x);
      if x == s[0] {
        assert x !in s[1..];
      }
    }
  }

  /** A permutation of a sequence without duplicates has none. */
  lemma NoDupFromMultiset<T>(a: seq<T>, b: seq<T>)
    requires NoDup(a) && multiset(a) == multiset(b)
    ensures NoDup(b)
  {
    forall i, j | 0 <= i < j < |b| ensures b[i] != b[j] {
      if b[i] == b[j] {
        assert b == b[..j] + [b[j]] + b[j + 1..];
        assert b[i] in multiset(b[..j]);
        assert multiset(b)[b[i]] >= 2;
        NoDupCount(a, b[i]);
        assert false;
      }
    }
  }

  /** The elements of a finite set, each once, in an order the model leaves open (the row order of a GROUP BY). */
  method Enumerate<T>(s: set<T>) returns (xs: seq<T>)
    ensures NoDup(xs) && |xs| == |s|
    ensures forall x :: x in xs <==> x in s
  {
    var pending := s;
    xs := [];
    while pending != {}
      invariant NoDup(xs)
      invariant forall x :: x in s <==> x in xs || x in pending
      invariant forall x :: x in xs ==> x !in pending
      invariant |xs| + |pending| == |s|
      decreases pending
    {
      var x :| x in pending;
      xs := xs + [x];
      pending := pending - {x};
    }
  }

  /** A toggle row: `x` is deleted when present and inserted otherwise. */
  function Toggled<T(!new)>(s: set<T>, x: T): (r: set<T>)
    ensures x in r <==> x !in s
    ensures forall y :: y != x ==> (y in r <==> y in s)
  {
    if x in s then s - {x} else s + {x}
  }

  /** Toggling the same row twice restores the table. */
  lemma ToggleTwiceRestores<T(!new)>(s: set<T>, x: T)
    ensures Toggled(Toggled(s, x), x) == s
  {
    var once := Toggled(s, x);
    var twice := Toggled(once, x);
    forall y ensures y in twice <==> y in s {
      if y == x {
        assert (y in twice) == (y !in once);
      }
    }
  }

  /** `toUpperCase` on the ASCII letters; other characters are kept. */
  function UpperChar(c: char): char {
    if 'a' <= c <= 'z' then (c as int - 32) as char else c
  }

  function Upper(s: string): (r: string)
    ensures |r| == |s|
    ensures forall i :: 0 <= i < |s| ==> r[i] == UpperChar(s[i])
  {
    seq(|s|, i requires 0 <= i < |s| => UpperChar(s[i]))
  }

  /** `s.substring(a, b)`: the bounds are clamped to the string and swapped when reversed. */
  function Substring(s: string, a: int, b: int): (r: string)
    ensures |r| <= |s|
    ensures 0 <= a <= b <= |s| ==> r == s[a..b]
  {
    var lo := if a < 0 then 0 else if a > |s| then |s| else a;
    var hi := if b < 0 then 0 else if b > |s| then |s| else b;
    if lo <= hi then s[lo..hi] else s[hi..lo]
  }

  predicate StartsWith(s: string, prefix: string) {
    |prefix| <= |s| && s[..|prefix|] == prefix
  }

  /** A string contains `pat` somewhere (SQL `LIKE '%pat%'` without wildcards inside `pat`). */
  predicate Contains(s: string, pat: string) {
    IndexOf(s, pat).Some?
  }

  function Count<T>(s: seq<T>, p: T -> bool): (n: nat)
    ensures n <= |s|
  {
    if s == [] then 0 else (if p(s[0]) then 1 else 0) + Count(s[1..], p)
  }

  function Filter<T(!new)>(s: seq<T>, p: T -> bool): (r: seq<T>)
    ensures |r| == Count(s, p)
    ensures forall x :: x in r <==> x in s && p(x)
  {
    if s == [] then [] else (if p(s[0]) then [s[0]] else []) + Filter(s[1..], p)
  }

  /** The number of rows `LIMIT limit OFFSET offset` keeps out of `n`. */
  function PageLength(n: nat, offset: nat, limit: nat): nat {
    if offset >= n then 0 else if offset + limit <= n then limit else n - offset
  }

  /** `LIMIT limit OFFSET offset` */
  function Slice<T>(s: seq<T>, offset: nat, limit: nat): (r: seq<T>)
    ensures |r| == PageLength(|s|, offset, limit)
    ensures forall i :: 0 <= i < |r| ==> r[i] == s[offset + i]
  {
    if offset >= |s| then [] else if offset + limit <= |s| then s[offset..offset + limit] else s[offset..]
  }

  /**
   * `LIMIT ? OFFSET ?` bound to what `parseInt` made of the query (None
   * for NaN): MariaDB accepts only non-negative numbers there.
   */
  predicate PageBounds(limit: Option<int>, offset: Option<int>) {
    limit.Some? && limit.value >= 0 && offset.Some? && offset.value >= 0
  }

  /** `[...s].reverse()` */
  function Reverse<T>(s: seq<T>): (r: seq<T>)
    ensures |r| == |s|
    ensures forall i :: 0 <= i < |s| ==> r[i] == s[|s| - 1 - i]
  {
    if s == [] then [] else Reverse(s[1..]) + [s[0]]
  }

  // ---------------------------------------------------------------------
  // Numbers written as text: MariaDB's reading of a route parameter that
  // meets an INT column, and JavaScript's `Number(text)`, which `==`
  // applies when it compares a string with a number
  // ---------------------------------------------------------------------

  predicate IsDigit(c: char) { '0' <= c <= '9' }

  /** `\w` */
  predicate IsWordChar(c: char) { 'a' <= c <= 'z' || 'A' <= c <= 'Z' || IsDigit(c) || c == '_' }

  function DigitValue(c: char): nat
    requires IsDigit(c)
  {
    c as int - '0' as int
  }

  function DigitChar(d: nat): (c: char)
    requires d < 10
    ensures IsDigit(c) && DigitValue(c) == d
  {
    ('0' as int + d) as char
  }

  predicate AllDigits(d: string) {
    forall i :: 0 <= i < |d| ==> IsDigit(d[i])
  }

  /** The number a run of decimal digits spells. */
  function Numeral(d: string): nat
    requires AllDigits(d)
  {
    if d == [] then 0 else Numeral(d[..|d| - 1]) * 10 + DigitValue(d[|d| - 1])
  }

  /** `String(n)` for a non-negative integer: its decimal digits, no leading zeros. */
  function DecimalText(n: nat): (s: string)
    ensures s != [] && AllDigits(s)
  {
    if n < 10 then [DigitChar(n)] else DecimalText(n / 10) + [DigitChar(n % 10)]
  }

  /** Reading back the decimal text of a number gives the number. */
  lemma {:induction false} NumeralOfDecimal(n: nat)
    ensures Numeral(DecimalText(n)) == n
  {
    if n >= 10 {
      NumeralOfDecimal(n / 10);
      var s := DecimalText(n);
      assert s[..|s| - 1] == DecimalText(n / 10);
    }
  }

  /** The exact value `mantissa × 10^exponent` of a numeral. */
  datatype Decimal = Decimal(mantissa: int, exponent: int)

  function Pow10(k: nat): (p: nat)
    ensures p >= 1
  {
    if k == 0 then 1 else 10 * Pow10(k - 1)
  }

  /** The decimal equals the integer `n`. */
  predicate Equals(d: Decimal, n: int) {
    if d.exponent >= 0 then d.mantissa * Pow10(d.exponent) == n
    else d.mantissa == n * Pow10(-d.exponent)
  }

  /** A non-zero multiple of `p` is at least `p` away from zero. */
  lemma MultipleBounds(p: int, k: int)
    requires p >= 1
    ensures k >= 1 ==> p * k >= p
    ensures k <= -1 ==> p * k <= -p
  {
    if k >= 1 {
      assert p * k == p + p * (k - 1);
    } else if k <= -1 {
      assert p * k == -p + p * (k + 1);
    }
  }

  /** A multiple of `p` divides by `p` exactly. */
  lemma MultipleDivides(m: int, p: int, n: int)
    requires p >= 1 && m == n * p
    ensures m % p == 0 && m / p == n
  {
    var q, r := m / p, m % p;
    assert m == p * q + r && 0 <= r < p;
    assert p * (n - q) == r by {
      assert p * (n - q) == n * p - p * q;
    }
    MultipleBounds(p, n - q);
  }

  /** The integer a decimal equals, if it equals one. */
  function IntegerOf(d: Decimal): (r: Option<int>)
    ensures forall n :: Equals(d, n) <==> r == Some(n)
  {
    if d.exponent >= 0 then Some(d.mantissa * Pow10(d.exponent))
    else
      var p := Pow10(-d.exponent);
      if d.mantissa % p == 0 then
        assert d.mantissa == (d.mantissa / p) * p;
        assert forall n :: Equals(d, n) ==> n == d.mantissa / p by {
          forall n | Equals(d, n) ensures n == d.mantissa / p {
            MultipleDivides(d.mantissa, p, n);
          }
        }
        Some(d.mantissa / p)
      else
        assert forall n :: !Equals(d, n) by {
          forall n | Equals(d, n) ensures false {
            MultipleDivides(d.mantissa, p, n);
          }
        }
        None
  }

  /** The end of the run of digits that starts at `i`. */
  function DigitsEnd(s: string, i: nat): (j: nat)
    requires i <= |s|
    ensures i <= j <= |s|
    ensures forall k :: i <= k < j ==> IsDigit(s[k])
    ensures j == |s| || !IsDigit(s[j])
    decreases |s| - i
  {
    if i < |s| && IsDigit(s[i]) then DigitsEnd(s, i + 1) else i
  }

  /** The end of a digit run is the first position that ends it. */
  lemma {:induction false} DigitsEndUnique(s: string, i: nat, j: nat)
    requires i <= j <= |s|
    requires forall k :: i <= k < j ==> IsDigit(s[k])
    requires j == |s| || !IsDigit(s[j])
    ensures DigitsEnd(s, i) == j
    decreases j - i
  {
    if i < j {
      DigitsEndUnique(s, i + 1, j);
    }
  }

  /** Cutting the text after a digit run does not change where the run ends. */
  lemma DigitsEndCut(s: string, i: nat, e: nat)
    requires i <= |s| && DigitsEnd(s, i) <= e <= |s|
    ensures DigitsEnd(s[..e], i) == DigitsEnd(s, i)
  {
    var j := DigitsEnd(s, i);
    var t := s[..e];
    assert forall k :: i <= k < j ==> t[k] == s[k];
    DigitsEndUnique(t, i, j);
  }

  /** The position after an optional sign at `i`. */
  function SignEnd(s: string, i: nat): (j: nat)
    requires i <= |s|
    ensures i <= j <= |s|
  {
    if i < |s| && (s[i] == '+' || s[i] == '-') then i + 1 else i
  }

  /** The position after an optional `. digits*` at `a`. */
  function FractionEnd(s: string, a: nat): (b: nat)
    requires a <= |s|
    ensures a <= b <= |s|
    ensures b > a ==> s[a] == '.'
  {
    if a < |s| && s[a] == '.' then DigitsEnd(s, a + 1) else a
  }

  /** The start of the exponent's digits when `s[b]` is `e` or `E`. */
  function ExponentDigits(s: string, b: nat): (k: nat)
    requires b < |s|
    ensures b + 1 <= k <= b + 2 && k <= |s|
  {
    if b + 1 < |s| && (s[b + 1] == '+' || s[b + 1] == '-') then b + 2 else b + 1
  }

  /** The exponent part `(e|E) [+-]? digits` at `b`: its value and where it ends, (0, b) when there is none. */
  function ExponentAt(s: string, b: nat): (x: (int, nat))
    requires b <= |s|
    ensures b <= x.1 <= |s|
    ensures x.1 > b ==> IsDigit(s[x.1 - 1])
  {
    if b < |s| && (s[b] == 'e' || s[b] == 'E') then
      var k := ExponentDigits(s, b);
      var c := DigitsEnd(s, k);
      var v: int := Numeral(s[k..c]);
      if c == k then (0, b)
      else (if s[b + 1] == '-' then -v else v, c)
    else (0, b)
  }

  /** A numeral read from position `i`: its value and the position after it. */
  datatype Reading = Reading(value: Decimal, end: nat)

  /** The fraction digits between `a` and `b`. */
  function FractionDigits(s: string, a: nat, b: nat): (f: string)
    requires a <= b <= |s|
  {
    if a < b then s[a + 1..b] else []
  }

  /**
   * The longest numeral `[+-]? digits* [. digits*] [(e|E) [+-]? digits]`
   * at `i` with at least one digit before the exponent, or None.
   */
  function ScanNumeral(s: string, i: nat): (r: Option<Reading>)
    requires i <= |s|
    ensures r.Some? ==> i < r.value.end <= |s|
  {
    var j := SignEnd(s, i);
    var a := DigitsEnd(s, j);
    var b := FractionEnd(s, a);
    var fraction := FractionDigits(s, a, b);
    if a == j && fraction == [] then None
    else
      var m: int := Numeral(s[j..a] + fraction);
      var x := ExponentAt(s, b);
      Some(Reading(Decimal(if j > i && s[i] == '-' then -m else m, x.0 - |fraction|), x.1))
  }

  /** A numeral starts with a sign, a digit or a point, and ends with a digit or a point. */
  lemma ScanShape(s: string, i: nat)
    requires i <= |s| && ScanNumeral(s, i).Some?
    ensures var e := ScanNumeral(s, i).value.end;
      && (s[i] == '+' || s[i] == '-' || s[i] == '.' || IsDigit(s[i]))
      && (s[e - 1] == '.' || IsDigit(s[e - 1]))
  {
    var j := SignEnd(s, i);
    var a := DigitsEnd(s, j);
    var b := FractionEnd(s, a);
    if j == i && a == j {
      assert s[i] == '.';
    }
    if ExponentAt(s, b).1 == b && b > a {
      assert b == a + 1 || IsDigit(s[b - 1]);
    }
  }

  lemma FractionEndCut(s: string, a: nat, e: nat)
    requires a <= |s| && FractionEnd(s, a) <= e <= |s|
    requires a == e ==> a == |s| || s[a] != '.'
    ensures FractionEnd(s[..e], a) == FractionEnd(s, a)
  {
    if a < |s| && s[a] == '.' {
      DigitsEndCut(s, a + 1, e);
    }
  }

  lemma ExponentCut(s: string, b: nat)
    requires b <= |s|
    ensures var c := ExponentAt(s, b).1; ExponentAt(s[..c], b) == ExponentAt(s, b)
  {
    var c := ExponentAt(s, b).1;
    var t := s[..c];
    if c > b {
      var k := ExponentDigits(s, b);
      assert t[b] == s[b];
      assert ExponentDigits(t, b) == k by {
        if b + 1 < c { assert t[b + 1] == s[b + 1]; }
      }
      DigitsEndCut(s, k, c);
      assert t[k..c] == s[k..c];
    }
  }

  /** A numeral reads the same when the text is cut right after it. */
  lemma ScanCut(s: string, i: nat)
    requires i <= |s| && ScanNumeral(s, i).Some?
    ensures var e := ScanNumeral(s, i).value.end; ScanNumeral(s[..e], i) == ScanNumeral(s, i)
  {
    var e := ScanNumeral(s, i).value.end;
    var t := s[..e];
    var j := SignEnd(s, i);
    var a := DigitsEnd(s, j);
    var b := FractionEnd(s, a);
    var x := ExponentAt(s, b);
    assert x.1 == e;
    assert SignEnd(t, i) == j by {
      assert t[i] == s[i];
    }
    DigitsEndCut(s, j, e);
    FractionEndCut(s, a, e);
    assert FractionDigits(t, a, b) == FractionDigits(s, a, b);
    assert t[j..a] == s[j..a];
    assert t[..e] == t;
    ExponentCut(s, b);
    assert ExponentAt(t, b) == x by {
      assert s[..e][..e] == t;
    }
    if j > i {
      assert t[i] == s[i];
    }
  }

  /** The space characters MariaDB skips around a number. */
  predicate IsSqlSpace(c: char) {
    c == ' ' || '\t' <= c <= '\r'
  }

  function SqlSpacesEnd(s: string, i: nat): (j: nat)
    requires i <= |s|
    ensures i <= j <= |s|
    ensures forall k :: i <= k < j ==> IsSqlSpace(s[k])
    ensures j == |s| || !IsSqlSpace(s[j])
    decreases |s| - i
  {
    if i < |s| && IsSqlSpace(s[i]) then SqlSpacesEnd(s, i + 1) else i
  }

  predicate SqlBlankFrom(s: string, i: nat) {
    forall k :: i <= k < |s| ==> IsSqlSpace(s[k])
  }

  /**
   * MariaDB's DOUBLE reading of a text that meets a number: leading spaces
   * are skipped and the longest numeral is read (0 without one);
   * `truncated` says that characters other than trailing spaces were
   * dropped, which raises the "Truncated incorrect DOUBLE value" warning.
   */
  datatype SqlReading = SqlReading(value: Decimal, truncated: bool)

  function SqlNumber(s: string): SqlReading {
    var u := s[SqlSpacesEnd(s, 0)..];
    match ScanNumeral(u, 0)
    case None => SqlReading(Decimal(0, 0), !SqlBlankFrom(u, 0))
    case Some(r) => SqlReading(r.value, !SqlBlankFrom(u, r.end))
  }

  /** The key of an INT id column that `id = ?` matches for the text: the natural number its reading equals, if any. */
  function SqlKey(s: string): (k: Option<nat>)
    ensures forall n: nat :: k == Some(n) <==> Equals(SqlNumber(s).value, n)
  {
    var n := IntegerOf(SqlNumber(s).value);
    if n.Some? && n.value >= 0 then Some(n.value) else None
  }

  /** A JavaScript number, as far as comparing it with an id goes. */
  datatype JsNumber = Finite(value: Decimal) | Infinite | NaN

  /** The base a `0x`, `0o` or `0b` prefix selects; 0 for any other character. */
  function RadixOf(c: char): nat {
    if c == 'x' || c == 'X' then 16 else if c == 'o' || c == 'O' then 8 else if c == 'b' || c == 'B' then 2 else 0
  }

  function HexDigit(c: char): Option<nat> {
    if IsDigit(c) then Some(DigitValue(c))
    else if 'a' <= c <= 'f' then Some(c as int - 'a' as int + 10)
    else if 'A' <= c <= 'F' then Some(c as int - 'A' as int + 10)
    else None
  }

  /** The value of digits in the given base, None when one of them is not a digit of that base. */
  function RadixValue(d: string, radix: nat): Option<nat> {
    if d == [] then Some(0)
    else
      var v := RadixValue(d[..|d| - 1], radix);
      var x := HexDigit(d[|d| - 1]);
      if v.None? || x.None? || x.value >= radix then None else Some(v.value * radix + x.value)
  }

  /**
   * `Number(s)`: white space is trimmed; the empty text is 0; then
   * `Infinity` with an optional sign, a `0x`/`0o`/`0b` integer, or a
   * decimal numeral that is the whole text; anything else is NaN.
   */
  function ToNumber(s: string): JsNumber {
    var t := Trim(s);
    if t == [] then Finite(Decimal(0, 0))
    else if t == "Infinity" || t == "+Infinity" || t == "-Infinity" then Infinite
    else if |t| >= 2 && t[0] == '0' && RadixOf(t[1]) != 0 then
      var v := RadixValue(t[2..], RadixOf(t[1]));
      if |t| == 2 || v.None? then NaN else Finite(Decimal(v.value, 0))
    else
      var r := ScanNumeral(t, 0);
      if r.Some? && r.value.end == |t| then Finite(r.value.value) else NaN
  }

  /** `text == n` for a string and a number. */
  predicate LooselyEquals(text: string, n: int) {
    ToNumber(text).Finite? && Equals(ToNumber(text).value, n)
  }

  /** Once MariaDB's leading spaces are skipped, a numeral starts where `trim` stops. */
  lemma TrimStartAtNumeral(s: string)
    requires ScanNumeral(s[SqlSpacesEnd(s, 0)..], 0).Some?
    ensures TrimStart(s) == s[SqlSpacesEnd(s, 0)..]
  {
    var i := SqlSpacesEnd(s, 0);
    var u := s[i..];
    ScanShape(u, 0);
    TrimStartShape(s);
    var ts := TrimStart(s);
    assert !IsSpace(u[0]);
  }

  /** Trailing spaces after a numeral are all that `trim` removes at the end. */
  lemma TrimEndAtNumeral(u: string, e: nat)
    requires 0 < e <= |u| && (u[e - 1] == '.' || IsDigit(u[e - 1])) && SqlBlankFrom(u, e)
    ensures TrimEnd(u) == u[..e]
  {
    TrimEndShape(u);
  }

  /** `Number` of a text that trims to a whole numeral is that numeral's value. */
  lemma ToNumberOfNumeral(s: string, t: string)
    requires Trim(s) == t && ScanNumeral(t, 0).Some? && ScanNumeral(t, 0).value.end == |t|
    ensures ToNumber(s) == Finite(ScanNumeral(t, 0).value.value)
  {
    ScanShape(t, 0);
    if t[0] == '+' || t[0] == '-' {
      assert SignEnd(t, 0) == 1;
      assert IsDigit(t[1]) || t[1] == '.' by {
        if !IsDigit(t[1]) {
          assert DigitsEnd(t, 1) == 1;
        }
      }
    }
  }

  /**
   * Whenever MariaDB reads a text without dropping characters, JavaScript's
   * `Number` reads the same value: a text that selects a row without a
   * truncation is `==` to that row's id.
   */
  lemma SqlReadingAgreesWithJs(s: string)
    requires !SqlNumber(s).truncated
    ensures ToNumber(s) == Finite(SqlNumber(s).value)
  {
    var i := SqlSpacesEnd(s, 0);
    var u := s[i..];
    var r := ScanNumeral(u, 0);
    if r.None? {
      assert IsBlank(s) by {
        forall k | 0 <= k < |s| ensures IsSpace(s[k]) {
        }
      }
      TrimShape(s);
    } else {
      var e := r.value.end;
      TrimStartAtNumeral(s);
      ScanShape(u, 0);
      TrimEndAtNumeral(u, e);
      ScanCut(u, 0);
      ToNumberOfNumeral(s, u[..e]);
    }
  }

  /** The decimal text of a positive number does not start with 0. */
  lemma {:induction false} DecimalTextLeads(n: nat)
    requires n >= 1
    ensures DecimalText(n)[0] != '0'
  {
    if n >= 10 {
      DecimalTextLeads(n / 10);
    } else {
      assert DigitValue(DecimalText(n)[0]) == n;
    }
  }

  /** The decimal text of a number, followed by text that cannot continue a numeral, reads as that number. */
  lemma ScanOfDecimal(n: nat, rest: string)
    requires rest == [] || !(IsDigit(rest[0]) || rest[0] == '.' || rest[0] == 'e' || rest[0] == 'E')
    ensures ScanNumeral(DecimalText(n) + rest, 0) == Some(Reading(Decimal(n, 0), |DecimalText(n)|))
  {
    var d := DecimalText(n);
    var s := d + rest;
    assert s[0] == d[0];
    assert SignEnd(s, 0) == 0;
    DigitsEndUnique(s, 0, |d|);
    assert FractionEnd(s, |d|) == |d|;
    assert ExponentAt(s, |d|) == (0, |d|);
    assert s[0..|d|] + [] == d;
    NumeralOfDecimal(n);
  }

  /** The decimal text of a number is read by MariaDB as that number, without a truncation. */
  lemma SqlReadingOfDecimal(n: nat)
    ensures SqlKey(DecimalText(n)) == Some(n) && !SqlNumber(DecimalText(n)).truncated
  {
    var d := DecimalText(n);
    ScanOfDecimal(n, []);
    assert d + [] == d;
    assert SqlSpacesEnd(d, 0) == 0;
    assert d[0..] == d;
    assert Equals(Decimal(n, 0), n);
  }

  /** `5.0` selects row 5 and is `==` to 5. */
  lemma ReadingOfPointZero()
    ensures SqlKey("5.0") == Some(5) && !SqlNumber("5.0").truncated && LooselyEquals("5.0", 5)
  {
    assert ScanNumeral("5.0", 0) == Some(Reading(Decimal(50, -1), 3)) by {
      assert SignEnd("5.0", 0) == 0;
      assert DigitsEnd("5.0", 0) == 1;
      assert DigitsEnd("5.0", 2) == 3;
      assert FractionDigits("5.0", 1, 3) == "0";
      assert "5.0"[0..1] + "0" == "50";
      assert ExponentAt("5.0", 3) == (0, 3);
      assert "50"[..1] == "5" && "5"[..0] == [];
      assert Numeral("50") == 50;
    }
    assert Equals(Decimal(50, -1), 5);
    SqlReadingAgreesWithJs("5.0");
  }

  /** `5.5` selects no row. */
  lemma ReadingOfFraction()
    ensures SqlKey("5.5") == None && !SqlNumber("5.5").truncated
  {
    assert ScanNumeral("5.5", 0) == Some(Reading(Decimal(55, -1), 3)) by {
      assert SignEnd("5.5", 0) == 0;
      assert DigitsEnd("5.5", 0) == 1;
      assert DigitsEnd("5.5", 2) == 3;
      assert FractionDigits("5.5", 1, 3) == "5";
      assert "5.5"[0..1] + "5" == "55";
      assert ExponentAt("5.5", 3) == (0, 3);
      assert "55"[..1] == "5" && "5"[..0] == [];
      assert Numeral("55") == 55;
    }
  }

  /** `5x` selects row 5 with a truncation, and is not `==` to 5. */
  lemma ReadingOfSuffixed()
    ensures SqlKey("5x") == Some(5) && SqlNumber("5x").truncated && !LooselyEquals("5x", 5)
  {
    assert ScanNumeral("5x", 0) == Some(Reading(Decimal(5, 0), 1)) by {
      assert DigitsEnd("5x", 0) == 1;
      assert Numeral("5") == 5;
    }
    assert Trim("5x") == "5x" by { TrimShape("5x"); }
  }

  /** `clear-all` reads as 0 with a truncation, and is NaN to JavaScript. */
  lemma ReadingOfWord()
    ensures SqlKey("clear-all") == Some(0) && SqlNumber("clear-all").truncated && ToNumber("clear-all") == NaN
  {
    assert ScanNumeral("clear-all", 0) == None by {
      assert DigitsEnd("clear-all", 0) == 0;
    }
    assert Trim("clear-all") == "clear-all" by { TrimShape("clear-all"); }
  }

  /** A text that starts with `[`, as the JSON text of an array does, reads as 0 with a truncation. */
  lemma ReadingOfBracket(s: string)
    requires |s| > 0 && s[0] == '['
    ensures SqlKey(s) == Some(0) && SqlNumber(s).truncated
  {
    assert SqlSpacesEnd(s, 0) == 0;
    assert s[0..] == s;
    assert ScanNumeral(s, 0) == None by {
      assert DigitsEnd(s, 0) == 0;
    }
  }

  /** `0x5` reads as 0 with a truncation in MariaDB, and is `==` to 5 in JavaScript. */
  lemma ReadingOfHex()
    ensures SqlKey("0x5") == Some(0) && SqlNumber("0x5").truncated && LooselyEquals("0x5", 5)
  {
    assert ScanNumeral("0x5", 0) == Some(Reading(Decimal(0, 0), 1)) by {
      assert DigitsEnd("0x5", 0) == 1;
      assert Numeral("0") == 0;
    }
    assert Trim("0x5") == "0x5" by { TrimShape("0x5"); }
    assert RadixValue("5", 16) == Some(5) by {
      assert RadixValue([], 16) == Some(0);
    }
  }

  /** `value || null`: an absent or empty string is stored as NULL. */
  function OrNull(s: Option<string>): (r: Option<string>)
    ensures r.Some? <==> s.Some? && s.value != ""
    ensures r.Some? ==> r == s
  {
    if s.Some? && s.value != "" then s else None
  }

  /** The `optional().trim()` sanitizer: a supplied string is trimmed, an absent one stays absent. */
  function TrimOpt(s: Option<string>): (r: Option<string>)
    ensures r.Some? <==> s.Some?
    ensures r.Some? ==> r.value == Trim(s.value)
  {
    if s.Some? then Some(Trim(s.value)) else None
  }

  // ---------------------------------------------------------------------
  // The JSON text of a list of strings
  // ---------------------------------------------------------------------

  /** A string JSON.stringify writes between quotes unchanged: no quote, no backslash. */
  predicate Unescaped(n: string) {
    forall i :: 0 <= i < |n| ==> n[i] != '"' && n[i] != '\\'
  }

  /** `JSON.stringify(items)` for strings that need no escapes: `["a","b"]`. */
  function JsonList(items: seq<string>): (t: string)
    ensures |t| >= 2 && t[0] == '[' && t[|t| - 1] == ']'
  {
    "[" + JsonItems(items) + "]"
  }

  function JsonItems(items: seq<string>): string {
    if items == [] then ""
    else "\"" + items[0] + "\"" + (if |items| == 1 then "" else "," + JsonItems(items[1..]))
  }

  /** The first index at or after `i` that holds a quote, or `|t|`. */
  function QuoteAt(t: string, i: nat): (k: nat)
    requires i <= |t|
    ensures i <= k <= |t|
    ensures k < |t| ==> t[k] == '"'
    ensures forall j :: i <= j < k ==> t[j] != '"'
    decreases |t| - i
  {
    if i == |t| || t[i] == '"' then i else QuoteAt(t, i + 1)
  }

  /**
   * JSON.parse of a text that is an array of strings written without white
   * space or escapes; None for every other text.
   */
  function ParseJsonList(t: string): (r: Option<seq<string>>)
    ensures r.Some? ==> |t| >= 2 && t[0] == '[' && t[|t| - 1] == ']'
  {
    if |t| < 2 || t[0] != '[' || t[|t| - 1] != ']' then None
    else if |t| == 2 then Some([])
    else ParseJsonItems(t[1..|t| - 1])
  }

  function ParseJsonItems(t: string): (r: Option<seq<string>>)
    ensures r.Some? ==> |r.value| >= 1
    decreases |t|
  {
    if |t| < 2 || t[0] != '"' then None
    else
      var k := QuoteAt(t, 1);
      var name := t[1..k];
      if k == |t| || !Unescaped(name) then None
      else if k + 1 == |t| then Some([name])
      else if t[k + 1] != ',' then None
      else match ParseJsonItems(t[k + 2..])
        case None => None
        case Some(rest) => Some([name] + rest)
  }

  /** Reading back the items of a list of unescaped strings gives the strings. */
  lemma {:induction false} JsonItemsRoundTrip(items: seq<string>)
    requires items != [] && forall i :: 0 <= i < |items| ==> Unescaped(items[i])
    ensures ParseJsonItems(JsonItems(items)) == Some(items)
  {
    var n := items[0];
    var tail := if |items| == 1 then "" else "," + JsonItems(items[1..]);
    var t := JsonItems(items);
    assert t == "\"" + n + "\"" + tail;
    QuotedItem(n, tail);
    if |items| > 1 {
      assert t[|n| + 3..] == JsonItems(items[1..]);
      JsonItemsRoundTrip(items[1..]);
      assert [n] + items[1..] == items;
    } else {
      assert items == [n];
    }
  }

  /** The quoted first item of a text ends at the first quote after it. */
  lemma QuotedItem(n: string, tail: string)
    requires Unescaped(n)
    ensures var t := "\"" + n + "\"" + tail;
      && QuoteAt(t, 1) == |n| + 1 && t[1..|n| + 1] == n
      && t[|n| + 2..] == tail && |t| >= 2 && t[0] == '"'
  {
    var t := "\"" + n + "\"" + tail;
    assert forall j :: 1 <= j < |n| + 1 ==> t[j] == n[j - 1];
    QuoteAtFirst(t, 1, |n| + 1);
  }

  /** `QuoteAt` stops at the first quote. */
  lemma {:induction false} QuoteAtFirst(t: string, i: nat, k: nat)
    requires i <= k < |t| && t[k] == '"' && forall j :: i <= j < k ==> t[j] != '"'
    ensures QuoteAt(t, i) == k
    decreases k - i
  {
    if i < k {
      QuoteAtFirst(t, i + 1, k);
    }
  }

  /** JSON.parse reads back what JSON.stringify wrote, for strings that need no escapes. */
  lemma JsonListRoundTrip(items: seq<string>)
    requires forall i :: 0 <= i < |items| ==> Unescaped(items[i])
    ensures ParseJsonList(JsonList(items)) == Some(items)
  {
    var t := JsonList(items);
    if items != [] {
      assert t[1..|t| - 1] == JsonItems(items);
      JsonItemsRoundTrip(items);
    }
  }
}
