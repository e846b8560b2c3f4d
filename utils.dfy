/**
  Utility functions of the extension library: the platform OS as a display
  string and the OS tests built on it, the whitespace test, the Chrome major
  version read from the user-agent string, a random string over a fixed
  alphabet and an in-place Fisher-Yates shuffle.

  Host queries are inputs: the outcome of the platform query is a
  `PlatformQuery` and the user-agent a string. Randomness is an oracle: a
  sequence of draws, each already in the range `Math.floor(Math.random() * n)`
  yields for the `n` of its call.
 */
module ChromeUtils {

  datatype Option<T> = None | Some(value: T)

  // ---------------------------------------------------------------------
  // Platform OS

  /** How the platform query settles: it answers with an OS code, or throws. */
  datatype PlatformQuery = Answered(os: string) | Threw

  /** The display name of each OS code the platform query can answer with. */
  const OSNames: map<string, string> := map[
    "win" := "MS Windows",
    "mac" := "Mac",
    "android" := "Android",
    "cros" := "Chrome OS",
    "linux" := "Linux",
    "openbsd" := "OpenBSD"
  ]

  /** The name shown for an unrecognised code or a failed query. */
  const UnknownOS: string := "Unknown"

  /** The display string for the outcome of a platform query. */
  function OSDisplayName(query: PlatformQuery): string {
    if query.Answered? && query.os in OSNames then OSNames[query.os] else UnknownOS
  }

  /** `getPlatformOS`: start from "Unknown" and overwrite it in the switch
      on the OS code when the query answers with a known one. */
  method GetPlatformOS(query: PlatformQuery) returns (output: string)
    ensures output == OSDisplayName(query)
    ensures output in OSNames.Values || output == UnknownOS
  {
    output := "Unknown";
    match query {
      case Threw =>
        // the query sometimes fails; keep "Unknown"
      case Answered(os) =>
        match os {
          case "win" => output := "MS Windows";
          case "mac" => output := "Mac";
          case "android" => output := "Android";
          case "cros" => output := "Chrome OS";
          case "linux" => output := "Linux";
          case "openbsd" => output := "OpenBSD";
          case _ =>
        }
    }
  }

  /** The six codes and their names. */
  lemma KnownOSNames()
    ensures OSDisplayName(Answered("win")) == "MS Windows"
    ensures OSDisplayName(Answered("mac")) == "Mac"
    ensures OSDisplayName(Answered("android")) == "Android"
    ensures OSDisplayName(Answered("cros")) == "Chrome OS"
    ensures OSDisplayName(Answered("linux")) == "Linux"
    ensures OSDisplayName(Answered("openbsd")) == "OpenBSD"
  {
  }

  /** "Unknown" is shown exactly when the query throws or answers with a code
      outside the six. */
  lemma UnknownExactlyWhenUnrecognised(query: PlatformQuery)
    ensures OSDisplayName(query) == UnknownOS <==> (query.Threw? || query.os !in OSNames)
  {
  }

  /** Distinct known codes have distinct names, so the name determines the code. */
  lemma OSNamesInjective(a: string, b: string)
    requires a in OSNames && b in OSNames && OSNames[a] == OSNames[b]
    ensures a == b
  {
  }

  /** `isOS(os)`: true exactly when the query answers with `os`; false when it throws. */
  function IsOS(query: PlatformQuery, os: string): (r: bool)
    ensures query.Threw? ==> !r
    ensures query.Answered? ==> (r <==> query.os == os)
  {
    match query
    case Answered(code) => code == os
    case Threw => false
  }

  /** For a known code, `isOS` agrees with the display name `getPlatformOS` shows. */
  lemma IsOSAgreesWithDisplayName(query: PlatformQuery, os: string)
    requires os in OSNames
    ensures IsOS(query, os) <==> OSDisplayName(query) == OSNames[os]
  {
    if OSDisplayName(query) == OSNames[os] {
      OSNamesInjective(query.os, os);
    }
  }

  /** `isWindows`. */
  function IsWindows(query: PlatformQuery): (r: bool)
    ensures r <==> OSDisplayName(query) == "MS Windows"
  {
    IsOS(query, "win")
  }

  /** `isChromeOS`. */
  function IsChromeOS(query: PlatformQuery): (r: bool)
    ensures r <==> OSDisplayName(query) == "Chrome OS"
  {
    IsOS(query, "cros")
  }

  /** `isMac`. */
  function IsMac(query: PlatformQuery): (r: bool)
    ensures r <==> OSDisplayName(query) == "Mac"
  {
    IsOS(query, "mac")
  }

  // ---------------------------------------------------------------------
  // Whitespace

  /** A character in the class `\s` of JavaScript regular expressions
      (the white space and line terminator characters of ECMAScript). */
  predicate IsJsSpace(c: char) {
    c == ' ' || c == '\t' || c == '\n' || c == '\r' || c == '\U{000B}' || c == '\U{000C}'
    || c == '\U{00A0}' || c == '\U{1680}' || ('\U{2000}' <= c <= '\U{200A}')
    || c == '\U{2028}' || c == '\U{2029}' || c == '\U{202F}' || c == '\U{205F}'
    || c == '\U{3000}' || c == '\U{FEFF}'
  }

  /** Whether `/^\s*$/` matches `s`: the star consumes one space at a time
      until the end of the input. */
  predicate MatchesSpaceStar(s: string) {
    s == [] || (IsJsSpace(s[0]) && MatchesSpaceStar(s[1..]))
  }

  /** `isWhiteSpace(str)`: `None` stands for a null or undefined argument. */
  function IsWhiteSpace(str: Option<string>): (r: bool)
    ensures r <==> str.None? || forall i :: 0 <= i < |str.value| ==> IsJsSpace(str.value[i])
  {
    if str.None? then true
    else
      SpaceStarIffAllSpace(str.value);
      |str.value| == 0 || MatchesSpaceStar(str.value)
  }

  /** The regular expression matches exactly the strings of space characters. */
  lemma {:induction false} SpaceStarIffAllSpace(s: string)
    ensures MatchesSpaceStar(s) <==> forall i :: 0 <= i < |s| ==> IsJsSpace(s[i])
  {
    if s != [] {
      SpaceStarIffAllSpace(s[1..]);
      assert forall i :: 1 <= i < |s| ==> s[i] == s[1..][i - 1];
    }
  }

  /** `isWhiteSpace` is true for null and for strings made only of space
      characters (so also for the empty string), and false exactly when some
      character is not a space. */
  lemma IsWhiteSpaceCharacterised(str: Option<string>)
    ensures str.None? ==> IsWhiteSpace(str)
    ensures str.Some? ==>
              (IsWhiteSpace(str) <==> forall i :: 0 <= i < |str.value| ==> IsJsSpace(str.value[i]))
    ensures str.Some? ==>
              (!IsWhiteSpace(str) <==> exists i :: 0 <= i < |str.value| && !IsJsSpace(str.value[i]))
  {
    if str.Some? {
      SpaceStarIffAllSpace(str.value);
    }
  }

  // ---------------------------------------------------------------------
  // Chrome version

  predicate IsDigit(c: char) {
    '0' <= c <= '9'
  }

  predicate AllDigits(s: string) {
    forall i :: 0 <= i < |s| ==> IsDigit(s[i])
  }

  /** Whether `w` occurs in `s` at position `p`. */
  predicate OccursAt(s: string, p: nat, w: string) {
    p + |w| <= |s| && s[p..p + |w|] == w
  }

  /** The two spellings `Chrom(e|ium)\/` leads with. */
  const ChromeHead: string := "Chrome/"
  const ChromiumHead: string := "Chromium/"

  /** The regular expression `/Chrom(e|ium)\/([0-9]+)\./` matches `ua` at
      position `p`, with its second group `ua[q..q + k]`. */
  ghost predicate RegexMatch(ua: string, p: nat, q: nat, k: nat) {
    && ((OccursAt(ua, p, ChromeHead) && q == p + |ChromeHead|)
        || (OccursAt(ua, p, ChromiumHead) && q == p + |ChromiumHead|))
    && 0 < k && q + k < |ua|
    && AllDigits(ua[q..q + k])
    && ua[q + k] == '.'
  }

  /** The length of the run of digits starting at `q`: what the greedy
      `[0-9]+` consumes before it looks at the next character. */
  function DigitRun(ua: string, q: nat): (k: nat)
    requires q <= |ua|
    ensures q + k <= |ua|
    ensures forall i :: q <= i < q + k ==> IsDigit(ua[i])
    ensures q + k == |ua| || !IsDigit(ua[q + k])
    decreases |ua| - q
  {
    if q < |ua| && IsDigit(ua[q]) then 1 + DigitRun(ua, q + 1) else 0
  }

  /** Backtracking cannot help the group: a match of `[0-9]+\.` from `q`
      always ends where the run of digits ends. */
  lemma GroupIsDigitRun(ua: string, p: nat, q: nat, k: nat)
    requires RegexMatch(ua, p, q, k)
    ensures k == DigitRun(ua, q)
  {
  }

  /** The two heads cannot both occur at one position: they differ in their
      sixth character. */
  lemma HeadsExclusive(ua: string, p: nat)
    ensures OccursAt(ua, p, ChromeHead) ==> ua[p + 5] == 'e'
    ensures OccursAt(ua, p, ChromiumHead) ==> ua[p + 5] == 'i'
    ensures !(OccursAt(ua, p, ChromeHead) && OccursAt(ua, p, ChromiumHead))
  {
    if OccursAt(ua, p, ChromeHead) {
      assert ua[p + 5] == ua[p..p + |ChromeHead|][5];
    }
    if OccursAt(ua, p, ChromiumHead) {
      assert ua[p + 5] == ua[p..p + |ChromiumHead|][5];
    }
  }

  /** At one position the match is unique: the two heads differ in their
      sixth character, and the group is the whole run of digits. */
  lemma MatchUniqueAt(ua: string, p: nat, q: nat, k: nat, q': nat, k': nat)
    requires RegexMatch(ua, p, q, k) && RegexMatch(ua, p, q', k')
    ensures q == q' && k == k'
  {
    HeadsExclusive(ua, p);
    GroupIsDigitRun(ua, p, q, k);
    GroupIsDigitRun(ua, p, q', k');
  }

  /** The second group when the regular expression matches at `p`. */
  function GroupAt(ua: string, p: nat): (g: Option<(nat, nat)>)
    ensures g.Some? ==> RegexMatch(ua, p, g.value.0, g.value.1)
    ensures g.None? ==> forall q: nat, k: nat :: !RegexMatch(ua, p, q, k)
  {
    var q :=
      if OccursAt(ua, p, ChromeHead) then p + |ChromeHead|
      else if OccursAt(ua, p, ChromiumHead) then p + |ChromiumHead|
      else |ua| + 1;
    if q <= |ua| then
      var k := DigitRun(ua, q);
      var group := ua[q..q + k];
      assert AllDigits(group) by {
        forall i | 0 <= i < |group| ensures IsDigit(group[i]) {
          assert group[i] == ua[q + i];
        }
      }
      if 0 < k && q + k < |ua| && ua[q + k] == '.' then
        Some((q, k))
      else
        assert forall q': nat, k': nat :: !RegexMatch(ua, p, q', k') by {
          forall q': nat, k': nat | RegexMatch(ua, p, q', k') ensures false {
            HeadsExclusive(ua, p);
            GroupIsDigitRun(ua, p, q', k');
          }
        }
        None
    else
      None
  }

  /** The leftmost match at or after `from`, as `String.prototype.match` finds it. */
  function FirstMatch(ua: string, from: nat): (m: Option<(nat, nat, nat)>)
    ensures m.Some? ==> from <= m.value.0 && RegexMatch(ua, m.value.0, m.value.1, m.value.2)
    ensures m.Some? ==> forall p: nat, q: nat, k: nat :: from <= p < m.value.0 ==> !RegexMatch(ua, p, q, k)
    ensures m.None? ==> forall p: nat, q: nat, k: nat :: from <= p ==> !RegexMatch(ua, p, q, k)
    decreases |ua| - from
  {
    if |ua| < from then
      None
    else
      match GroupAt(ua, from)
      case Some((q, k)) => Some((from, q, k))
      case None => FirstMatch(ua, from + 1)
  }

  /** The numeric value of a digit character. */
  function DigitValue(c: char): nat
    requires IsDigit(c)
  {
    (c as int) - ('0' as int)
  }

  /** Ten to the power `n`. */
  function Pow10(n: nat): (r: nat)
    ensures 0 < r
  {
    if n == 0 then 1 else 10 * Pow10(n - 1)
  }

  /** `parseInt(digits, 10)` on a non-empty string of decimal digits: the
      value has no more digits than the string. */
  function ParseDecimal(s: string): (r: nat)
    requires AllDigits(s)
    ensures r < Pow10(|s|)
  {
    if s == [] then 0 else 10 * ParseDecimal(s[..|s| - 1]) + DigitValue(s[|s| - 1])
  }

  /** `getChromeVersion`: the decimal value of the digits of the first match,
      or 0 when the user-agent does not match. */
  function GetChromeVersion(ua: string): (v: nat)
    ensures (forall p: nat, q: nat, k: nat :: !RegexMatch(ua, p, q, k)) ==> v == 0
    ensures v == 0 || exists p: nat, q: nat, k: nat :: RegexMatch(ua, p, q, k) && v == ParseDecimal(ua[q..q + k])
  {
    match FirstMatch(ua, 0)
    case None => 0
    case Some((p, q, k)) => ParseDecimal(ua[q..q + k])
  }

  /** No match anywhere: the version is 0. */
  lemma ChromeVersionWithoutMatch(ua: string)
    requires forall p: nat, q: nat, k: nat :: !RegexMatch(ua, p, q, k)
    ensures GetChromeVersion(ua) == 0
  {
  }

  /** The leftmost match decides: the version is the value of its digits. */
  lemma ChromeVersionOfFirstMatch(ua: string, p: nat, q: nat, k: nat)
    requires RegexMatch(ua, p, q, k)
    requires forall p': nat, q': nat, k': nat :: p' < p ==> !RegexMatch(ua, p', q', k')
    ensures GetChromeVersion(ua) == ParseDecimal(ua[q..q + k])
  {
    var m := FirstMatch(ua, 0);
    assert m.Some?;
    var (p', q', k') := m.value;
    assert p' == p;
    MatchUniqueAt(ua, p, q, k, q', k');
  }

  /** The decimal rendering of a number, the partner of `ParseDecimal`. */
  function DecimalString(n: nat): (s: string)
    ensures AllDigits(s) && 0 < |s|
  {
    var d := ['0' + ((n % 10) as char)];
    if n < 10 then d else DecimalString(n / 10) + d
  }

  /** Parsing a rendered number gives the number back. */
  lemma {:induction false} ParseDecimalOfDecimalString(n: nat)
    ensures ParseDecimal(DecimalString(n)) == n
  {
    var s := DecimalString(n);
    if 10 <= n {
      ParseDecimalOfDecimalString(n / 10);
      assert s[..|s| - 1] == DecimalString(n / 10);
    }
  }

  /** `parseInt` ignores leading zeros. */
  lemma {:induction false} ParseDecimalLeadingZero(s: string)
    requires AllDigits(s)
    ensures AllDigits("0" + s) && ParseDecimal("0" + s) == ParseDecimal(s)
  {
    if s != [] {
      var t := "0" + s;
      assert t[..|t| - 1] == "0" + s[..|s| - 1];
      ParseDecimalLeadingZero(s[..|s| - 1]);
    }
  }

  // ---------------------------------------------------------------------
  // Random string

  /** The alphabet `getRandomString` draws from. */
  const Possible: string := "ABCDEFGHIJKLMNOPQRSTUVWXYZabcdefghijklmnopqrstuvwxyz0123456789"

  /** `getRandomString(len)`: `draws[i]` is the alphabet index chosen in the
      `i`-th pass of the loop. */
  method GetRandomString(len: int, draws: seq<int>) returns (text: string)
    requires len <= |draws|
    requires forall i :: 0 <= i < |draws| ==> 0 <= draws[i] < |Possible|
    ensures |text| == if len <= 0 then 0 else len
    ensures forall i :: 0 <= i < |text| ==> text[i] in Possible
    ensures forall i :: 0 <= i < |text| ==> text[i] == Possible[draws[i]]
  {
    text := "";
    var i := 0;
    while i < len
      invariant 0 <= i <= |draws|
      invariant if len <= 0 then i == 0 else i <= len
      invariant |text| == i
      invariant forall k :: 0 <= k < i ==> text[k] == Possible[draws[k]]
    {
      text := text + [Possible[draws[i]]];
      i := i + 1;
    }
  }

  // ---------------------------------------------------------------------
  // Shuffle

  /** Draws fit an array of length `n`: the `k`-th pass of the loop, the one
      for `i == n - 1 - k`, draws `j` in `[0, i]`. */
  predicate DrawsFit(n: nat, draws: seq<int>) {
    n - 1 <= |draws| && forall k :: 0 <= k < |draws| ==> 0 <= draws[k] <= n - 1 - k
  }

  /** `s` with the elements at `i` and `j` exchanged. */
  function Swap<T>(s: seq<T>, i: nat, j: nat): (r: seq<T>)
    requires i < |s| && j < |s|
    ensures |r| == |s| && r[i] == s[j] && r[j] == s[i]
    ensures forall m :: 0 <= m < |s| && m != i && m != j ==> r[m] == s[m]
  {
    s[i := s[j]][j := s[i]]
  }

  /** The passes of the shuffle for `i`, `i - 1`, ..., `1` applied to `s`. */
  function ShuffleFrom<T>(s: seq<T>, draws: seq<int>, i: int): seq<T>
    requires i < |s| && DrawsFit(|s|, draws)
    decreases i
  {
    if i <= 0 then s
    else ShuffleFrom(Swap(s, i, draws[|s| - 1 - i]), draws, i - 1)
  }

  /** The whole shuffle of `s` under `draws`. */
  function Shuffled<T>(s: seq<T>, draws: seq<int>): seq<T>
    requires DrawsFit(|s|, draws)
  {
    ShuffleFrom(s, draws, |s| - 1)
  }

  /** Each pass only exchanges two elements, so the shuffle keeps the length
      and the multiset of elements. */
  lemma {:induction false} ShuffleFromPermutes<T>(s: seq<T>, draws: seq<int>, i: int)
    requires i < |s| && DrawsFit(|s|, draws)
    ensures |ShuffleFrom(s, draws, i)| == |s|
    ensures multiset(ShuffleFrom(s, draws, i)) == multiset(s)
    decreases i
  {
    if 0 < i {
      var t := Swap(s, i, draws[|s| - 1 - i]);
      assert multiset(t) == multiset(s);
      ShuffleFromPermutes(t, draws, i - 1);
    }
  }

  /** The shuffle is a permutation of its input. */
  lemma ShuffledIsPermutation<T>(s: seq<T>, draws: seq<int>)
    requires DrawsFit(|s|, draws)
    ensures |Shuffled(s, draws)| == |s|
    ensures multiset(Shuffled(s, draws)) == multiset(s)
  {
    ShuffleFromPermutes(s, draws, |s| - 1);
  }

  /** The passes for `i` and below never touch the positions above `i`. */
  lemma {:induction false} ShuffleFromFixesAbove<T>(s: seq<T>, draws: seq<int>, i: int, m: nat)
    requires i < m < |s| && DrawsFit(|s|, draws)
    ensures |ShuffleFrom(s, draws, i)| == |s| && ShuffleFrom(s, draws, i)[m] == s[m]
    decreases i
  {
    if 0 < i {
      ShuffleFromFixesAbove(Swap(s, i, draws[|s| - 1 - i]), draws, i - 1, m);
    }
  }

  /** The first pass settles the last position: it ends up holding the
      element the first draw picked. */
  lemma LastPositionFromFirstDraw<T>(s: seq<T>, draws: seq<int>)
    requires 2 <= |s| && DrawsFit(|s|, draws)
    ensures |Shuffled(s, draws)| == |s| && Shuffled(s, draws)[|s| - 1] == s[draws[0]]
  {
    var n := |s|;
    ShuffleFromFixesAbove(Swap(s, n - 1, draws[0]), draws, n - 2, n - 1);
  }

  /** Arrays of length 0 or 1 are left as they are. */
  lemma ShortArraysUnchanged<T>(s: seq<T>, draws: seq<int>)
    requires |s| <= 1 && DrawsFit(|s|, draws)
    ensures Shuffled(s, draws) == s
  {
  }

  /** When every pass draws its own index, every exchange is trivial and the
      order is kept: all the change comes from the draws. */
  lemma {:induction false} SelfDrawsKeepOrder<T>(s: seq<T>, draws: seq<int>, i: int)
    requires i < |s| && DrawsFit(|s|, draws)
    requires forall k :: 0 <= k < |draws| ==> draws[k] == |s| - 1 - k
    ensures ShuffleFrom(s, draws, i) == s
    decreases i
  {
    if 0 < i {
      var j := draws[|s| - 1 - i];
      assert Swap(s, i, j) == s;
      SelfDrawsKeepOrder(s, draws, i - 1);
    }
  }

  /** `shuffleArray(array)`: a null array has length 0, and the `k`-th pass
      of the descending loop exchanges `a[i]` with `a[draws[k]]`. */
  method ShuffleArray<T>(a: array?<T>, draws: seq<int>)
    requires a != null ==> DrawsFit(a.Length, draws)
    modifies a
    ensures a != null ==> a[..] == Shuffled(old(a[..]), draws)
    ensures a != null ==> multiset(a[..]) == multiset(old(a[..]))
  {
    var len := if a != null then a.Length else 0;
    var i := len - 1;
    while i > 0
      invariant -1 <= i < len
      invariant 0 < i ==> a != null
      invariant a != null ==> ShuffleFrom(a[..], draws, i) == Shuffled(old(a[..]), draws)
    {
      var j := draws[len - 1 - i];
      var temp := a[i];
      a[i] := a[j];
      a[j] := temp;
      i := i - 1;
    }
    if a != null {
      ShuffledIsPermutation(old(a[..]), draws);
    }
  }
}
