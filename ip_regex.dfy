/** The address pattern `\d{1,3}\.\d{1,3}\.\d{1,3}\.\d{1,3}:\d+` and a
    leftmost search for it, the way Python's `re.search` runs it.

    The pattern is stated twice: declaratively (`AddressIn`: positions
    `lo..hi` of a string can be cut into four 1-3 digit octets separated by
    dots, a colon and a non-empty run of digits), and as a total matcher
    (`MatchEnd`) that reads one maximal digit run per group. Because neither
    `.` nor `:` is a digit, backtracking can never choose a different cut, so
    the two agree; the lemmas below prove it. */
module IpRegex {
  import opened Wrappers
  import opened Strings

  /** The span `[start, end)` of a match: Python's `m.start()` and `m.end()`. */
  datatype Span = Span(start: nat, end: nat)

  // ----- the pattern, declaratively, on positions lo..hi of s -----

  predicate DigitsIn(s: string, lo: int, hi: int) {
    0 <= lo <= hi <= |s| && forall k :: lo <= k < hi ==> IsDigit(s[k])
  }

  /** `\d{1,3}` */
  predicate OctetIn(s: string, lo: int, hi: int) {
    lo < hi <= lo + 3 && DigitsIn(s, lo, hi)
  }

  /** `\d+` */
  predicate PortIn(s: string, lo: int, hi: int) {
    lo < hi && DigitsIn(s, lo, hi)
  }

  /** The dots at `a < b < c` cut `lo..hi` into four octets. */
  predicate DotCuts(s: string, lo: int, a: int, b: int, c: int, hi: int) {
    && OctetIn(s, lo, a) && OctetIn(s, a + 1, b) && OctetIn(s, b + 1, c) && OctetIn(s, c + 1, hi)
    && s[a] == '.' && s[b] == '.' && s[c] == '.'
  }

  /** `\d{1,3}\.\d{1,3}\.\d{1,3}\.\d{1,3}` */
  ghost predicate IpIn(s: string, lo: int, hi: int) {
    exists a, b, c :: DotCuts(s, lo, a, b, c, hi)
  }

  /** The colon at `d` cuts `lo..hi` into an IP and a port. */
  ghost predicate ColonCut(s: string, lo: int, d: int, hi: int) {
    0 <= lo < d < hi <= |s| && s[d] == ':' && IpIn(s, lo, d) && PortIn(s, d + 1, hi)
  }

  /** The whole pattern `\d{1,3}\.\d{1,3}\.\d{1,3}\.\d{1,3}:\d+` on `lo..hi`. */
  ghost predicate AddressIn(s: string, lo: int, hi: int) {
    exists d :: ColonCut(s, lo, d, hi)
  }

  /** The whole string is an IP, a port, an address. */
  ghost predicate IsIp(t: string) { IpIn(t, 0, |t|) }
  predicate IsPort(t: string) { PortIn(t, 0, |t|) }
  ghost predicate IsAddress(t: string) { AddressIn(t, 0, |t|) }

  /** Some substring of `s` matches the pattern. */
  ghost predicate ContainsAddress(s: string) {
    exists i, j :: AddressIn(s, i, j)
  }

  // ----- the matcher -----

  /** Length of the maximal run of digits starting at `i`. */
  function DigitRun(s: string, i: nat): (n: nat)
    requires i <= |s|
    ensures DigitsIn(s, i, i + n)
    ensures i + n == |s| || !IsDigit(s[i + n])
    decreases |s| - i
  {
    if i < |s| && IsDigit(s[i]) then 1 + DigitRun(s, i + 1) else 0
  }

  /** `\d{1,3}` followed by `sep`, matched at `i`: the position after `sep`. */
  function OctetThen(s: string, i: nat, sep: char): (r: Option<nat>)
    requires i <= |s|
    ensures r.Some? ==> i < r.value <= |s| && s[r.value - 1] == sep && OctetIn(s, i, r.value - 1)
  {
    var n := DigitRun(s, i);
    if 1 <= n <= 3 && i + n < |s| && s[i + n] == sep then Some(i + n + 1) else None
  }

  /** `\d{1,3}\.\d{1,3}\.\d{1,3}\.\d{1,3}:` matched at `i`: the position after the colon. */
  function IpThen(s: string, i: nat): (r: Option<nat>)
    requires i <= |s|
    ensures r.Some? ==> i < r.value <= |s|
  {
    match OctetThen(s, i, '.')
    case None => None
    case Some(j1) =>
      match OctetThen(s, j1, '.')
      case None => None
      case Some(j2) =>
        match OctetThen(s, j2, '.')
        case None => None
        case Some(j3) => OctetThen(s, j3, ':')
  }

  /** The end of the match of the whole pattern starting at `i`, if there is one;
      the port takes every digit it can, as the greedy `\d+` does. */
  function MatchEnd(s: string, i: nat): (r: Option<nat>)
    requires i <= |s|
    ensures r.Some? ==> i < r.value <= |s|
  {
    match IpThen(s, i)
    case None => None
    case Some(j4) =>
      var p := DigitRun(s, j4);
      if p == 0 then None else Some(j4 + p)
  }

  /** Leftmost search from `i` on: `re.search` tries each start in turn. */
  function SearchFrom(s: string, i: nat): (r: Option<Span>)
    requires i <= |s|
    ensures r.Some? ==> i <= r.value.start <= r.value.end <= |s|
    ensures r.Some? ==> AddressIn(s, r.value.start, r.value.end)
    decreases |s| - i
  {
    match MatchEnd(s, i)
    case Some(e) => MatchEndSound(s, i); Some(Span(i, e))
    case None => if i == |s| then None else SearchFrom(s, i + 1)
  }

  // ----- the matcher agrees with the pattern -----

  /** The digit run is determined by where the digits stop. */
  lemma DigitRunExact(s: string, i: nat, k: nat)
    requires DigitsIn(s, i, i + k)
    requires i + k == |s| || !IsDigit(s[i + k])
    ensures DigitRun(s, i) == k
  {
  }

  /** The digit run is at least as long as any all-digit stretch. */
  lemma DigitRunCovers(s: string, i: nat, k: nat)
    requires DigitsIn(s, i, i + k)
    ensures DigitRun(s, i) >= k
  {
  }

  /** An octet followed by a non-digit separator is found by `OctetThen`. */
  lemma OctetThenFinds(s: string, i: nat, q: nat, sep: char)
    requires q < |s| && OctetIn(s, i, q) && s[q] == sep && !IsDigit(sep)
    ensures OctetThen(s, i, sep) == Some(q + 1)
  {
    DigitRunExact(s, i, q - i);
  }

  /** What `IpThen` reads is an IP followed by a colon. */
  lemma IpThenSound(s: string, i: nat)
    requires i <= |s| && IpThen(s, i).Some?
    ensures IpIn(s, i, IpThen(s, i).value - 1) && s[IpThen(s, i).value - 1] == ':'
  {
    var j1 := OctetThen(s, i, '.').value;
    var j2 := OctetThen(s, j1, '.').value;
    var j3 := OctetThen(s, j2, '.').value;
    var j4 := OctetThen(s, j3, ':').value;
    assert DotCuts(s, i, j1 - 1, j2 - 1, j3 - 1, j4 - 1);
  }

  /** Four octets cut by dots at `a`, `b`, `c` and ended by a colon at `q`
      are read by `IpThen`. */
  lemma IpThenReads(s: string, i: nat, a: nat, b: nat, c: nat, q: nat)
    requires q < |s| && DotCuts(s, i, a, b, c, q) && s[q] == ':'
    ensures IpThen(s, i) == Some(q + 1)
  {
    OctetThenFinds(s, i, a, '.');
    OctetThenFinds(s, a + 1, b, '.');
    OctetThenFinds(s, b + 1, c, '.');
    OctetThenFinds(s, c + 1, q, ':');
  }

  /** An IP followed by a colon is read by `IpThen`. */
  lemma IpThenFinds(s: string, i: nat, q: nat)
    requires q < |s| && IpIn(s, i, q) && s[q] == ':'
    ensures IpThen(s, i) == Some(q + 1)
  {
    var a, b, c :| DotCuts(s, i, a, b, c, q);
    IpThenReads(s, i, a, b, c, q);
  }

  /** What `MatchEnd` finds matches the pattern, and no longer. */
  lemma MatchEndSound(s: string, i: nat)
    requires i <= |s| && MatchEnd(s, i).Some?
    ensures AddressIn(s, i, MatchEnd(s, i).value)
    ensures MatchEnd(s, i).value == |s| || !IsDigit(s[MatchEnd(s, i).value])
  {
    var j4 := IpThen(s, i).value;
    IpThenSound(s, i);
    assert ColonCut(s, i, j4 - 1, MatchEnd(s, i).value);
  }

  /** Every match of the pattern starting at `i` is found by `MatchEnd`,
      which ends no earlier. */
  lemma MatchEndComplete(s: string, i: nat, j: int)
    requires AddressIn(s, i, j)
    ensures MatchEnd(s, i).Some? && j <= MatchEnd(s, i).value
  {
    var d :| ColonCut(s, i, d, j);
    IpThenFinds(s, i, d);
    DigitRunCovers(s, d + 1, j - (d + 1));
  }

  /** No match of the pattern starts at `lo` or later but before `hi`. */
  ghost predicate NoMatchStarts(s: string, lo: int, hi: int) {
    forall k, j :: lo <= k < hi ==> !AddressIn(s, k, j)
  }

  /** No match of the pattern starting at `start` ends after `end`. */
  ghost predicate NoLongerMatch(s: string, start: int, end: int) {
    forall j :: end < j ==> !AddressIn(s, start, j)
  }

  /** What `SearchFrom` returns is a match that `MatchEnd` finds. */
  lemma {:induction false} SearchFromFound(s: string, i: nat)
    requires i <= |s| && SearchFrom(s, i).Some?
    ensures i <= SearchFrom(s, i).value.start <= |s|
    ensures MatchEnd(s, SearchFrom(s, i).value.start) == Some(SearchFrom(s, i).value.end)
    decreases |s| - i
  {
    if MatchEnd(s, i).None? {
      SearchFromFound(s, i + 1);
    }
  }

  /** `SearchFrom` passes over a start only when `MatchEnd` fails there. */
  lemma {:induction false} SearchFromSkips(s: string, i: nat, k: nat)
    requires i <= k <= |s|
    requires SearchFrom(s, i).None? || k < SearchFrom(s, i).value.start
    ensures MatchEnd(s, k).None?
    decreases k - i
  {
    if k > i {
      assert SearchFrom(s, i) == SearchFrom(s, i + 1);
      SearchFromSkips(s, i + 1, k);
    }
  }

  /** What the search returns, stated with the pattern: the leftmost start
      where the pattern matches, the longest match there, and nothing exactly
      when no substring matches. */
  lemma SearchFromStart(s: string)
    ensures SearchFrom(s, 0).None? <==> !ContainsAddress(s)
    ensures SearchFrom(s, 0).Some? ==>
      var m := SearchFrom(s, 0).value;
      && m.start <= m.end <= |s|
      && AddressIn(s, m.start, m.end)
      && NoMatchStarts(s, 0, m.start)
      && NoLongerMatch(s, m.start, m.end)
  {
    match SearchFrom(s, 0)
    case None =>
      forall k, j | AddressIn(s, k, j) ensures false {
        SearchFromSkips(s, 0, k);
        MatchEndComplete(s, k, j);
      }
    case Some(m) =>
      SearchFromFound(s, 0);
      MatchEndSound(s, m.start);
      forall k, j | k < m.start && AddressIn(s, k, j) ensures false {
        SearchFromSkips(s, 0, k);
        MatchEndComplete(s, k, j);
      }
      forall j | m.end < j && AddressIn(s, m.start, j) ensures false {
        MatchEndComplete(s, m.start, j);
      }
  }

  /** `re.search(IP_REGEX, s)`: the span of the leftmost match, and of the
      longest match starting there; `None` exactly when no substring matches. */
  function Search(s: string): (r: Option<Span>)
    ensures r.None? <==> !ContainsAddress(s)
    ensures r.Some? ==> r.value.start <= r.value.end <= |s| && AddressIn(s, r.value.start, r.value.end)
    ensures r.Some? ==> forall k, j :: k < r.value.start ==> !AddressIn(s, k, j)
    ensures r.Some? ==> forall j :: r.value.end < j ==> !AddressIn(s, r.value.start, j)
  {
    SearchFromStart(s);
    SearchFrom(s, 0)
  }

  /** `m.group(0)`: the matched text. */
  function Group(s: string, m: Span): (r: string)
    requires m.start <= m.end <= |s|
    ensures |r| == m.end - m.start
    ensures s == s[..m.start] + r + s[m.end..]
  {
    s[m.start..m.end]
  }

  // ----- from positions to substrings -----

  /** Moving positions `lo..hi` of `s` to the substring `s[i..j]`. */
  lemma DigitsShift(s: string, i: int, j: int, lo: int, hi: int)
    requires 0 <= i <= lo <= hi <= j <= |s|
    ensures DigitsIn(s, lo, hi) <==> DigitsIn(s[i..j], lo - i, hi - i)
  {
    var t := s[i..j];
    if DigitsIn(s, lo, hi) {
      forall k | lo - i <= k < hi - i ensures IsDigit(t[k]) { assert t[k] == s[k + i]; }
    }
    if DigitsIn(t, lo - i, hi - i) {
      forall k | lo <= k < hi ensures IsDigit(s[k]) { assert t[k - i] == s[k]; }
    }
  }

  /** An IP on positions `lo..hi` of `s` sits at `lo - i..hi - i` of `s[i..j]`. */
  lemma IpShift(s: string, i: int, j: int, lo: int, hi: int)
    requires 0 <= i <= lo <= hi <= j <= |s| && IpIn(s, lo, hi)
    ensures IpIn(s[i..j], lo - i, hi - i)
  {
    var t := s[i..j];
    var a, b, c :| DotCuts(s, lo, a, b, c, hi);
    DigitsShift(s, i, j, lo, a);
    DigitsShift(s, i, j, a + 1, b);
    DigitsShift(s, i, j, b + 1, c);
    DigitsShift(s, i, j, c + 1, hi);
    assert DotCuts(t, lo - i, a - i, b - i, c - i, hi - i);
  }

  /** The IP `s[i..j]`, seen at positions `lo - i..hi - i`, sits at `lo..hi` of `s`. */
  lemma IpUnshift(s: string, i: int, j: int, lo: int, hi: int)
    requires 0 <= i <= lo <= hi <= j <= |s| && IpIn(s[i..j], lo - i, hi - i)
    ensures IpIn(s, lo, hi)
  {
    var t := s[i..j];
    var a, b, c :| DotCuts(t, lo - i, a, b, c, hi - i);
    DigitsShift(s, i, j, lo, a + i);
    DigitsShift(s, i, j, a + i + 1, b + i);
    DigitsShift(s, i, j, b + i + 1, c + i);
    DigitsShift(s, i, j, c + i + 1, hi);
    assert DotCuts(s, lo, a + i, b + i, c + i, hi);
  }

  /** An address on positions `i..j` of `s` is the address `s[i..j]`. */
  lemma AddressShift(s: string, i: int, j: int)
    requires 0 <= i <= j <= |s| && AddressIn(s, i, j)
    ensures IsAddress(s[i..j])
  {
    var t := s[i..j];
    var d :| ColonCut(s, i, d, j);
    IpShift(s, i, j, i, d);
    DigitsShift(s, i, j, d + 1, j);
    assert ColonCut(t, 0, d - i, |t|);
  }

  // ----- what the pattern accepts -----

  /** An IP holds only digits and dots, so no colon. */
  lemma IpHasNoColon(ip: string)
    requires IsIp(ip)
    ensures ':' !in ip
  {
    var a, b, c :| DotCuts(ip, 0, a, b, c, |ip|);
    forall k | 0 <= k < |ip| ensures ip[k] != ':' {
      if k < a {} else if a < k < b {} else if b < k < c {} else if c < k {}
    }
  }

  /** A port is all digits, so no colon. */
  lemma PortHasNoColon(port: string)
    requires IsPort(port)
    ensures ':' !in port
  {
    forall k | 0 <= k < |port| ensures port[k] != ':' {
      assert IsDigit(port[k]);
    }
  }

  /** A well-formed address splits at `:` into exactly an IP and a port,
      which re-join with `:` to the address. */
  lemma AddressSplits(t: string)
    requires IsAddress(t)
    ensures var parts := Split(t, ':');
      && |parts| == 2
      && IsIp(parts[0]) && ':' !in parts[0]
      && IsPort(parts[1])
      && parts[0] + ":" + parts[1] == t
  {
    var d :| ColonCut(t, 0, d, |t|);
    var ip, port := t[..d], t[d + 1..];
    assert t[0..d] == ip && t[d + 1..|t|] == port;
    IpShift(t, 0, d, 0, d);
    DigitsShift(t, d + 1, |t|, d + 1, |t|);
    IpHasNoColon(ip);
    PortHasNoColon(port);
    assert t == ip + [':'] + port;
    SplitTwo(ip, port, ':');
  }

  /** An IP and a port joined with `":"` make an address. */
  lemma JoinedIsAddress(ip: string, port: string)
    requires IsIp(ip) && IsPort(port)
    ensures IsAddress(ip + ":" + port)
  {
    var t := ip + ":" + port;
    var d := |ip|;
    assert t[0..d] == ip && t[d + 1..|t|] == port;
    IpUnshift(t, 0, d, 0, d);
    DigitsShift(t, d + 1, |t|, d + 1, |t|);
    assert ColonCut(t, 0, d, |t|);
  }

  /** A string that is itself a well-formed address is matched whole. */
  lemma SearchWhole(t: string)
    requires IsAddress(t)
    ensures Search(t) == Some(Span(0, |t|))
  {
  }
}
