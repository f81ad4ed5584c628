/** String primitives the document pipeline is built from: Python's `str`
    methods (`strip`, `split`, `join`, `lower`, `count`, `endswith`, `rfind`)
    and the character classes behind `\s`, `\w` and `\d`. */
module Text {

  function Min(a: int, b: int): int { if a <= b then a else b }
  function Max(a: int, b: int): int { if a >= b then a else b }

  /** Python's `str.isspace()`, which is also what `\s` and argument-less
      `strip()`/`split()` treat as whitespace. */
  predicate IsSpace(c: char) {
    || c == ' '
    || ('\t' <= c <= '\r')
    || ('\U{1C}' <= c <= '\U{1F}')
    || c == '\U{85}' || c == '\U{A0}' || c == '\U{1680}'
    || ('\U{2000}' <= c <= '\U{200A}')
    || c == '\U{2028}' || c == '\U{2029}' || c == '\U{202F}'
    || c == '\U{205F}' || c == '\U{3000}'
  }

  predicate IsAsciiLetter(c: char) { ('a' <= c <= 'z') || ('A' <= c <= 'Z') }

  predicate IsAsciiDigit(c: char) { '0' <= c <= '9' }

  /** `\w`: letters, digits and underscore. Beyond ASCII only the Latin-1 and
      Latin Extended letters and the Arabic letters and digits are word
      characters here. */
  predicate IsWordChar(c: char) {
    || IsAsciiLetter(c) || IsAsciiDigit(c) || c == '_'
    || c == '\U{AA}' || c == '\U{B5}' || c == '\U{BA}'
    || ('\U{C0}' <= c <= '\U{24F}' && c != '\U{D7}' && c != '\U{F7}')
    || ('\U{620}' <= c <= '\U{64A}') || ('\U{660}' <= c <= '\U{669}')
    || ('\U{671}' <= c <= '\U{6D3}') || ('\U{6F0}' <= c <= '\U{6F9}')
  }

  function LowerChar(c: char): (d: char)
    ensures IsAsciiLetter(c) ==> 'a' <= d <= 'z'
    ensures !('A' <= c <= 'Z') ==> d == c
  {
    if 'A' <= c <= 'Z' then (c as int + 32) as char else c
  }

  /** `str.lower()` on ASCII letters; every other character is kept. */
  function Lower(s: string): (r: string)
    ensures |r| == |s|
    ensures forall i :: 0 <= i < |s| ==> r[i] == LowerChar(s[i])
  {
    seq(|s|, i requires 0 <= i < |s| => LowerChar(s[i]))
  }

  lemma LowerIdempotent(s: string)
    ensures Lower(Lower(s)) == Lower(s)
  {
    assert forall i :: 0 <= i < |s| ==> LowerChar(LowerChar(s[i])) == LowerChar(s[i]);
  }

  /** End of the maximal run of characters satisfying `p` that starts at `i`. */
  function RunEnd(s: string, i: nat, p: char -> bool): (k: nat)
    requires i <= |s|
    ensures i <= k <= |s|
    ensures forall j :: i <= j < k ==> p(s[j])
    ensures k == |s| || !p(s[k])
    decreases |s| - i
  {
    if i < |s| && p(s[i]) then RunEnd(s, i + 1, p) else i
  }

  /** Start of the maximal run of characters satisfying `p` that ends at `j`. */
  function RunStart(s: string, j: nat, p: char -> bool): (k: nat)
    requires j <= |s|
    ensures k <= j
    ensures forall m :: k <= m < j ==> p(s[m])
    ensures k == 0 || !p(s[k - 1])
    decreases j
  {
    if j > 0 && p(s[j - 1]) then RunStart(s, j - 1, p) else j
  }

  /** Python's argument-less `str.strip()`. */
  function Strip(s: string): (r: string)
    ensures |r| <= |s|
    ensures r == [] <==> forall i :: 0 <= i < |s| ==> IsSpace(s[i])
    ensures r != [] ==> !IsSpace(r[0]) && !IsSpace(r[|r| - 1])
  {
    var a := RunEnd(s, 0, IsSpace);
    var b := RunStart(s, |s|, IsSpace);
    if a >= b then [] else s[a..b]
  }

  /** Where `Strip(s)` starts inside `s`: it is the slice `s[a..a + |Strip(s)|]`,
      with only whitespace on either side. */
  lemma StripIsSlice(s: string) returns (a: nat)
    ensures a + |Strip(s)| <= |s|
    ensures Strip(s) == s[a..a + |Strip(s)|]
    ensures forall i :: 0 <= i < a ==> IsSpace(s[i])
    ensures forall i :: a + |Strip(s)| <= i < |s| ==> IsSpace(s[i])
  {
    var x := RunEnd(s, 0, IsSpace);
    var y := RunStart(s, |s|, IsSpace);
    if x >= y { a := 0; } else { a := x; }
  }

  /** A string that neither starts nor ends with whitespace is its own strip. */
  lemma StripTrimmed(s: string)
    requires s != [] ==> !IsSpace(s[0]) && !IsSpace(s[|s| - 1])
    ensures Strip(s) == s
  {
    if s != [] {
      assert RunEnd(s, 0, IsSpace) == 0;
      assert RunStart(s, |s|, IsSpace) == |s|;
    }
  }

  lemma StripIdempotent(s: string)
    ensures Strip(Strip(s)) == Strip(s)
  {
    StripTrimmed(Strip(s));
  }

  /** `sub in s` for a substring `sub`. */
  predicate Contains(s: string, sub: string)
    decreases |s|
  {
    sub <= s || (s != [] && Contains(s[1..], sub))
  }

  lemma ContainsNonEmptyInEmpty(sub: string)
    requires sub != []
    ensures !Contains([], sub)
  {
  }

  /** `any(x in s for x in subs)`. */
  predicate ContainsAny(s: string, subs: seq<string>)
  {
    exists x :: x in subs && Contains(s, x)
  }

  /** A non-empty string with no whitespace at either end. */
  predicate IsTrimmed(s: string) { s != [] && !IsSpace(s[0]) && !IsSpace(s[|s| - 1]) }

  lemma {:induction false} RunStartReaches(s: string, j: nat, k: nat, p: char -> bool)
    requires k <= j <= |s|
    requires forall m :: k <= m < j ==> p(s[m])
    requires k == 0 || !p(s[k - 1])
    ensures RunStart(s, j, p) == k
    decreases j - k
  {
    if k < j {
      RunStartReaches(s, j - 1, k, p);
    }
  }

  /** Stripping a trimmed string followed by whitespace gives the string back. */
  lemma StripTrailingSpace(s: string, t: string)
    requires IsTrimmed(s)
    requires forall m :: 0 <= m < |t| ==> IsSpace(t[m])
    ensures Strip(s + t) == s
  {
    var u := s + t;
    assert RunEnd(u, 0, IsSpace) == 0 by { assert u[0] == s[0]; }
    RunStartReaches(u, |u|, |s|, IsSpace);
    assert u[..|s|] == s;
  }

  /** Whitespace occurs only as single spaces. */
  predicate SingleSpaced(s: string)
  {
    && (forall i :: 0 <= i < |s| && IsSpace(s[i]) ==> s[i] == ' ')
    && (forall i :: 0 <= i < |s| - 1 && s[i] == ' ' ==> s[i + 1] != ' ')
  }

  /** `re.sub(r'\s+', ' ', s)`: every run of whitespace becomes one space. */
  function CollapseSpace(s: string): (r: string)
    ensures |r| <= |s|
    ensures forall c :: c in r ==> c in s || c == ' '
    ensures r == [] <==> s == []
    ensures s != [] ==> r[0] == (if IsSpace(s[0]) then ' ' else s[0])
    ensures s != [] ==> (IsSpace(r[|r| - 1]) <==> IsSpace(s[|s| - 1]))
    decreases |s|
  {
    if s == [] then []
    else if IsSpace(s[0]) then [' '] + CollapseSpace(s[RunEnd(s, 0, IsSpace)..])
    else [s[0]] + CollapseSpace(s[1..])
  }

  /** The collapsed string is single-spaced. */
  lemma {:induction false} CollapseSpaceSingleSpaced(s: string)
    ensures SingleSpaced(CollapseSpace(s))
    decreases |s|
  {
    if s != [] {
      var r := CollapseSpace(s);
      var k := if IsSpace(s[0]) then RunEnd(s, 0, IsSpace) else 1;
      var rest := CollapseSpace(s[k..]);
      CollapseSpaceSingleSpaced(s[k..]);
      assert r == [r[0]] + rest;
      forall i | 0 <= i < |r| && IsSpace(r[i]) ensures r[i] == ' ' {
        if i > 0 { assert r[i] == rest[i - 1]; }
      }
      forall i | 0 <= i < |r| - 1 && r[i] == ' ' ensures r[i + 1] != ' ' {
        assert r[i + 1] == rest[i];
        if i > 0 { assert r[i] == rest[i - 1]; }
      }
    }
  }

  /** Joining trimmed single-spaced parts with one space gives a trimmed
      single-spaced string. */
  lemma {:induction false} JoinSingleSpaced(parts: seq<string>)
    requires forall k :: 0 <= k < |parts| ==> IsTrimmed(parts[k]) && SingleSpaced(parts[k])
    ensures SingleSpaced(Join(" ", parts))
    ensures parts != [] ==> IsTrimmed(Join(" ", parts))
    decreases |parts|
  {
    if parts != [] {
      JoinEnds(" ", parts);
    }
    if |parts| > 1 {
      var p := parts[0];
      var rest := Join(" ", parts[1..]);
      JoinSingleSpaced(parts[1..]);
      JoinEnds(" ", parts[1..]);
      var u := Join(" ", parts);
      assert u == p + [' '] + rest;
      forall i | 0 <= i < |u| && IsSpace(u[i]) ensures u[i] == ' ' {
        if i < |p| { assert u[i] == p[i]; }
        else if i > |p| { assert u[i] == rest[i - |p| - 1]; }
      }
      assert u[|p| - 1] == p[|p| - 1];
      forall i | 0 <= i < |u| - 1 && u[i] == ' ' ensures u[i + 1] != ' ' {
        if i + 1 < |p| { assert u[i] == p[i] && u[i + 1] == p[i + 1]; }
        else if i + 1 == |p| { assert false; }
        else if i == |p| { assert u[i + 1] == rest[0]; }
        else { assert u[i] == rest[i - |p| - 1] && u[i + 1] == rest[i - |p|]; }
      }
    }
  }

  /** Stripping keeps only characters of the string. */
  lemma StripChars(s: string)
    ensures forall c :: c in Strip(s) ==> c in s
  {
    var a := StripIsSlice(s);
    forall c | c in Strip(s) ensures c in s {
      var i :| 0 <= i < |Strip(s)| && Strip(s)[i] == c;
      assert s[a + i] == c;
    }
  }

  /** Stripping brings in no occurrence of `sub`. */
  lemma StripKeepsAbsent(s: string, sub: string)
    requires !Contains(s, sub)
    ensures !Contains(Strip(s), sub)
  {
    var a := StripIsSlice(s);
    ContainsSlice(s, sub, a, a + |Strip(s)|);
  }

  /** An occurrence at offset `k` is found by `Contains`. */
  lemma {:induction false} ContainsAt(s: string, sub: string, k: nat)
    requires k <= |s| && sub <= s[k..]
    ensures Contains(s, sub)
    decreases k
  {
    if k > 0 {
      assert s[1..][k - 1..] == s[k..];
      ContainsAt(s[1..], sub, k - 1);
    } else {
      assert s[k..] == s;
    }
  }

  /** `Contains` finds an occurrence at some offset. */
  lemma {:induction false} ContainsWitness(s: string, sub: string) returns (k: nat)
    requires Contains(s, sub)
    ensures k <= |s| && sub <= s[k..]
    decreases |s|
  {
    if sub <= s {
      k := 0;
    } else {
      var j := ContainsWitness(s[1..], sub);
      assert s[1..][j..] == s[j + 1..];
      k := j + 1;
    }
  }

  /** A substring of a string without `sub` has no `sub` either. */
  lemma ContainsSlice(s: string, sub: string, a: nat, b: nat)
    requires a <= b <= |s| && !Contains(s, sub)
    ensures !Contains(s[a..b], sub)
  {
    if Contains(s[a..b], sub) {
      var k := ContainsWitness(s[a..b], sub);
      assert s[a..b][k..] == s[a + k..b];
      assert sub <= s[a + k..];
      ContainsAt(s, sub, a + k);
    }
  }

  /** Python's `s.count(sub)`: non-overlapping occurrences, left to right. */
  function Occurrences(s: string, sub: string): (n: nat)
    requires sub != []
    ensures n * |sub| <= |s|
    decreases |s|
  {
    if |s| < |sub| then 0
    else if sub <= s then 1 + Occurrences(s[|sub|..], sub)
    else Occurrences(s[1..], sub)
  }

  /** Number of characters of `s` that satisfy `p`. */
  function CountIf(s: string, p: char -> bool): (n: nat)
    ensures n <= |s|
  {
    if s == [] then 0 else (if p(s[0]) then 1 else 0) + CountIf(s[1..], p)
  }

  /** Python's `sep.join(parts)`. */
  function Join(sep: string, parts: seq<string>): string
  {
    if parts == [] then []
    else if |parts| == 1 then parts[0]
    else parts[0] + sep + Join(sep, parts[1..])
  }

  /** Python's `s.split(sep)` for a non-empty separator. */
  function Split(s: string, sep: string): (parts: seq<string>)
    requires sep != []
    ensures |parts| >= 1
    decreases |s|
  {
    if |s| < |sep| then [s]
    else if sep <= s then [[]] + Split(s[|sep|..], sep)
    else
      var rest := Split(s[1..], sep);
      [[s[0]] + rest[0]] + rest[1..]
  }

  /** A split yields one more piece than there are separators: `len(s.split(sep)) == s.count(sep) + 1`. */
  lemma {:induction false} SplitCount(s: string, sep: string)
    requires sep != []
    ensures |Split(s, sep)| == Occurrences(s, sep) + 1
    decreases |s|
  {
    if |s| < |sep| {
    } else if sep <= s {
      SplitCount(s[|sep|..], sep);
    } else {
      SplitCount(s[1..], sep);
    }
  }

  lemma JoinCons(sep: string, x: string, parts: seq<string>)
    requires parts != []
    ensures Join(sep, [x] + parts) == x + sep + Join(sep, parts)
  {
    assert ([x] + parts)[1..] == parts;
  }

  /** Appending a part appends the separator and the part. */
  lemma {:induction false} JoinSnoc(sep: string, parts: seq<string>, x: string)
    requires parts != []
    ensures Join(sep, parts + [x]) == Join(sep, parts) + sep + x
    decreases |parts|
  {
    if |parts| == 1 {
      assert parts + [x] == [parts[0], x];
    } else {
      assert (parts + [x])[1..] == parts[1..] + [x];
      JoinSnoc(sep, parts[1..], x);
    }
  }

  /** Gluing a character onto the first part glues it onto the join. */
  lemma JoinPrepend(sep: string, c: char, parts: seq<string>)
    requires parts != []
    ensures Join(sep, [[c] + parts[0]] + parts[1..]) == [c] + Join(sep, parts)
  {
    if |parts| > 1 {
      JoinCons(sep, [c] + parts[0], parts[1..]);
      assert parts == [parts[0]] + parts[1..];
      JoinCons(sep, parts[0], parts[1..]);
    }
  }

  /** Joining the pieces of a split with the same separator gives the string back. */
  lemma {:induction false} JoinSplit(s: string, sep: string)
    requires sep != []
    ensures Join(sep, Split(s, sep)) == s
    decreases |s|
  {
    if |s| < |sep| {
    } else if sep <= s {
      var rest := Split(s[|sep|..], sep);
      JoinSplit(s[|sep|..], sep);
      JoinCons(sep, [], rest);
      assert s == sep + s[|sep|..];
    } else {
      var rest := Split(s[1..], sep);
      JoinSplit(s[1..], sep);
      JoinPrepend(sep, s[0], rest);
      assert s == [s[0]] + s[1..];
    }
  }

  /** No piece of a split contains the separator's first character. */
  lemma {:induction false} SplitPiecesAvoidSeparator(s: string, sep: string)
    requires sep != [] && |sep| == 1
    ensures forall p :: p in Split(s, sep) ==> sep[0] !in p
    decreases |s|
  {
    if |s| < |sep| {
    } else if sep <= s {
      SplitPiecesAvoidSeparator(s[|sep|..], sep);
    } else {
      SplitPiecesAvoidSeparator(s[1..], sep);
      var rest := Split(s[1..], sep);
      assert s[0] != sep[0];
      assert forall p :: p in rest[1..] ==> p in rest;
    }
  }

  /** A piece that does not contain the separator's first character is not split. */
  lemma {:induction false} SplitOfPiece(p: string, sep: string)
    requires sep != [] && sep[0] !in p
    ensures Split(p, sep) == [p]
    decreases |p|
  {
    if |p| >= |sep| {
      assert p[0] != sep[0];
      SplitOfPiece(p[1..], sep);
      assert p == [p[0]] + p[1..];
    }
  }

  lemma {:induction false} SplitAfterPiece(p: string, sep: string, rest: string)
    requires sep != [] && sep[0] !in p
    ensures Split(p + sep + rest, sep) == [p] + Split(rest, sep)
    decreases |p|
  {
    if p == [] {
      assert p + sep + rest == sep + rest;
      assert (sep + rest)[|sep|..] == rest;
    } else {
      assert p[0] != sep[0];
      SplitAfterPiece(p[1..], sep, rest);
      assert (p + sep + rest)[1..] == p[1..] + sep + rest;
      assert p == [p[0]] + p[1..];
    }
  }

  /** Splitting a join gives the parts back when no part contains the
      separator's first character. */
  lemma {:induction false} SplitJoin(parts: seq<string>, sep: string)
    requires sep != [] && parts != []
    requires forall p :: p in parts ==> sep[0] !in p
    ensures Split(Join(sep, parts), sep) == parts
    decreases |parts|
  {
    if |parts| == 1 {
      SplitOfPiece(parts[0], sep);
    } else {
      SplitJoin(parts[1..], sep);
      SplitAfterPiece(parts[0], sep, Join(sep, parts[1..]));
      assert parts == [parts[0]] + parts[1..];
    }
  }

  /** A character in neither the separator nor any part is not in the join. */
  lemma {:induction false} JoinAvoids(sep: string, parts: seq<string>, c: char)
    requires c !in sep
    requires forall p :: p in parts ==> c !in p
    ensures c !in Join(sep, parts)
    decreases |parts|
  {
    if |parts| > 1 {
      JoinAvoids(sep, parts[1..], c);
    }
  }

  /** Joining non-empty trimmed parts gives a trimmed string: it starts with the
      first part's first character and ends with the last part's last one. */
  lemma {:induction false} JoinEnds(sep: string, parts: seq<string>)
    requires parts != []
    requires forall i :: 0 <= i < |parts| ==> parts[i] != []
    ensures Join(sep, parts) != []
    ensures Join(sep, parts)[0] == parts[0][0]
    ensures Join(sep, parts)[|Join(sep, parts)| - 1] == parts[|parts| - 1][|parts[|parts| - 1]| - 1]
    decreases |parts|
  {
    if |parts| > 1 {
      JoinEnds(sep, parts[1..]);
    }
  }

  /** Python's argument-less `s.split()`: the maximal runs of non-whitespace. */
  function SplitWs(s: string): (words: seq<string>)
    decreases |s|
  {
    if s == [] then []
    else if IsSpace(s[0]) then SplitWs(s[1..])
    else
      var b := RunEnd(s, 0, NotSpace);
      [s[..b]] + SplitWs(s[b..])
  }

  predicate NotSpace(c: char) { !IsSpace(c) }

  /** A non-empty word without whitespace, as `split()` produces. */
  predicate IsToken(w: string) { w != [] && forall c :: c in w ==> !IsSpace(c) }

  lemma {:induction false} SplitWsTokens(s: string)
    ensures forall w :: w in SplitWs(s) ==> IsToken(w)
    decreases |s|
  {
    if s == [] {
    } else if IsSpace(s[0]) {
      SplitWsTokens(s[1..]);
    } else {
      var b := RunEnd(s, 0, NotSpace);
      SplitWsTokens(s[b..]);
      assert forall c :: c in s[..b] ==> !IsSpace(c);
    }
  }

  lemma {:induction false} SplitWsOfWordThenRest(w: string, s: string)
    requires IsToken(w)
    requires s == [] || IsSpace(s[0])
    ensures SplitWs(w + s) == [w] + SplitWs(s)
  {
    var t := w + s;
    assert !IsSpace(t[0]) by { assert t[0] == w[0]; assert w[0] in w; }
    var b := RunEnd(t, 0, NotSpace);
    assert b == |w| by {
      assert forall j :: 0 <= j < |w| ==> NotSpace(t[j]) by {
        forall j | 0 <= j < |w| ensures NotSpace(t[j]) { assert t[j] == w[j]; assert w[j] in w; }
      }
      RunEndReaches(t, 0, |w|, NotSpace);
    }
    assert t[..b] == w;
    assert t[b..] == s;
  }

  lemma {:induction false} RunEndReaches(s: string, i: nat, k: nat, p: char -> bool)
    requires i <= k <= |s|
    requires forall j :: i <= j < k ==> p(s[j])
    requires k == |s| || !p(s[k])
    ensures RunEnd(s, i, p) == k
    decreases k - i
  {
    if i < k {
      RunEndReaches(s, i + 1, k, p);
    }
  }

  /** `' '.join(...)` of whitespace-free words splits back into the same words,
      which makes Python's `' '.join(s.split())` idempotent. */
  lemma {:induction false} SplitWsJoin(words: seq<string>)
    requires forall w :: w in words ==> IsToken(w)
    ensures SplitWs(Join(" ", words)) == words
    decreases |words|
  {
    if words == [] {
    } else if |words| == 1 {
      assert words[0] in words;
      SplitWsOfWordThenRest(words[0], []);
      assert words[0] + [] == words[0];
      assert SplitWs([]) == [];
    } else {
      var w := words[0];
      var tail := words[1..];
      assert w in words;
      assert forall x :: x in tail ==> x in words;
      SplitWsJoin(tail);
      var rest := Join(" ", tail);
      JoinCons(" ", w, tail);
      assert words == [w] + tail;
      assert Join(" ", words) == w + (" " + rest);
      SplitWsOfWordThenRest(w, " " + rest);
      assert (" " + rest)[1..] == rest;
    }
  }

  /** Number of distinct elements: Python's `len(set(xs))`. */
  function Distinct(xs: seq<string>): nat
  {
    |set x | x in xs|
  }

  lemma {:induction false} DistinctAtMostLength(xs: seq<string>)
    ensures Distinct(xs) <= |xs|
    decreases |xs|
  {
    if xs != [] {
      var init := xs[..|xs| - 1];
      DistinctAtMostLength(init);
      assert (set x | x in xs) == (set x | x in init) + {xs[|xs| - 1]} by {
        assert xs == init + [xs[|xs| - 1]];
      }
    }
  }

  lemma DistinctAtLeastOne(xs: seq<string>)
    requires xs != []
    ensures Distinct(xs) >= 1
  {
    var s := set x | x in xs;
    assert xs[0] in s;
    assert s != {};
  }

  /** Python's `s.endswith(suffix)`. */
  predicate EndsWith(s: string, suffix: string)
  {
    |suffix| <= |s| && s[|s| - |suffix|..] == suffix
  }

  /** Python's `s.rfind(c)` for one character: the last index holding `c`, or -1. */
  function RFind(s: string, c: char): (i: int)
    ensures -1 <= i < |s|
    ensures i >= 0 ==> s[i] == c
    ensures forall j :: i < j < |s| ==> s[j] != c
  {
    if s == [] then -1
    else if s[|s| - 1] == c then |s| - 1
    else RFind(s[..|s| - 1], c)
  }
}
