/**
 * The Python 2 `str` operations the failover scripts are built from, on ASCII text:
 * split() and split(sep[, maxsplit]), join, replace, strip(chars), a regular-expression
 * character-class deletion, lower(), int() and str() of a natural number.
 */
module PyText {
  import opened Results

  /** The characters Python's str.isspace() accepts. */
  const Whitespace: set<char> := {' ', '\t', '\n', '\r', '\U{0B}', '\U{0C}'}

  predicate IsSpace(c: char) { c in Whitespace }

  ghost predicate IsWord(w: string) {
    w != [] && forall i :: 0 <= i < |w| ==> !IsSpace(w[i])
  }

  /** Length of the leading run of non-whitespace characters. */
  function WordLength(s: string): (n: nat)
    ensures n <= |s|
    ensures forall i :: 0 <= i < n ==> !IsSpace(s[i])
    ensures n < |s| ==> IsSpace(s[n])
  {
    if s == [] || IsSpace(s[0]) then 0 else 1 + WordLength(s[1..])
  }

  /** `s.split()`: the maximal runs of non-whitespace characters, in order. */
  function Words(s: string): (r: seq<string>)
    ensures forall i :: 0 <= i < |r| ==> IsWord(r[i])
    decreases |s|
  {
    if s == [] then []
    else if IsSpace(s[0]) then Words(s[1..])
    else
      var n := WordLength(s);
      [s[..n]] + Words(s[n..])
  }

  /** `sep.join(parts)`. */
  function Join(sep: string, parts: seq<string>): string
  {
    if |parts| == 0 then ""
    else if |parts| == 1 then parts[0]
    else parts[0] + sep + Join(sep, parts[1..])
  }

  /** `' '.join(s.split())`: whitespace runs collapsed to one blank, ends trimmed. */
  function CollapseWhitespace(s: string): string
  {
    Join(" ", Words(s))
  }

  predicate OccursAt(s: string, pat: string, j: nat)
  {
    j + |pat| <= |s| && s[j..j + |pat|] == pat
  }

  /** The first position at or after `from` where `pat` occurs, if any. */
  function FindFrom(s: string, pat: string, from: nat): (r: Option<nat>)
    requires pat != [] && from <= |s|
    ensures r.Some? ==> from <= r.value && OccursAt(s, pat, r.value)
    ensures forall j: nat :: from <= j && (r.None? || j < r.value) ==> !OccursAt(s, pat, j)
    decreases |s| - from
  {
    if from + |pat| > |s| then None
    else if s[from..from + |pat|] == pat then Some(from)
    else FindFrom(s, pat, from + 1)
  }

  /** `s.find(pat)`: the first position where `pat` occurs, if any. */
  function Find(s: string, pat: string): (r: Option<nat>)
    requires pat != []
    ensures r.Some? ==> OccursAt(s, pat, r.value)
    ensures forall j: nat :: (r.None? || j < r.value) ==> !OccursAt(s, pat, j)
  {
    FindFrom(s, pat, 0)
  }

  predicate Contains(s: string, pat: string)
    requires pat != []
  {
    Find(s, pat).Some?
  }

  /** `s.split(sep)` for a non-empty separator. */
  function SplitOn(s: string, sep: string): (r: seq<string>)
    requires sep != []
    ensures |r| >= 1
    decreases |s|
  {
    match Find(s, sep)
    case None => [s]
    case Some(k) => [s[..k]] + SplitOn(s[k + |sep|..], sep)
  }

  /** `s.split(sep, maxsplit)`: at most `maxsplit` cuts, the rest left in the last piece. */
  function SplitMax(s: string, sep: string, maxsplit: nat): (r: seq<string>)
    requires sep != []
    ensures 1 <= |r|
    decreases maxsplit
  {
    if maxsplit == 0 then [s]
    else
      match Find(s, sep)
      case None => [s]
      case Some(k) => [s[..k]] + SplitMax(s[k + |sep|..], sep, maxsplit - 1)
  }

  /** `s.replace(target, repl)`: every non-overlapping occurrence, scanned from the left. */
  function Replace(s: string, target: string, repl: string): string
    requires target != []
  {
    Join(repl, SplitOn(s, target))
  }

  /** `s.lstrip(chars)`. */
  function LStrip(s: string, chars: set<char>): (r: string)
    ensures r == [] || r[0] !in chars
    ensures |r| <= |s| && r == s[|s| - |r|..]
    decreases |s|
  {
    if s != [] && s[0] in chars then LStrip(s[1..], chars) else s
  }

  /** `s.rstrip(chars)`. */
  function RStrip(s: string, chars: set<char>): (r: string)
    ensures r == [] || r[|r| - 1] !in chars
    ensures |r| <= |s| && r == s[..|r|]
    decreases |s|
  {
    if s != [] && s[|s| - 1] in chars then RStrip(s[..|s| - 1], chars) else s
  }

  /** `s.strip(chars)`: `chars` is a set of characters, not a substring. */
  function Strip(s: string, chars: set<char>): string
  {
    RStrip(LStrip(s, chars), chars)
  }

  /** `re.sub('[chars]', '', s)`, and `s.replace(c, '')` for a single character. */
  function RemoveChars(s: string, chars: set<char>): (r: string)
    ensures forall i :: 0 <= i < |r| ==> r[i] !in chars
    ensures |r| <= |s|
  {
    if s == [] then []
    else (if s[0] in chars then [] else [s[0]]) + RemoveChars(s[1..], chars)
  }

  function LowerChar(c: char): char
  {
    if 'A' <= c <= 'Z' then (c as int + 32) as char else c
  }

  /** `s.lower()` on ASCII text. */
  function Lower(s: string): (r: string)
    ensures |r| == |s|
  {
    if s == [] then [] else [LowerChar(s[0])] + Lower(s[1..])
  }

  predicate StartsWith(s: string, prefix: string)
  {
    |prefix| <= |s| && s[..|prefix|] == prefix
  }

  predicate IsDigit(c: char) { '0' <= c <= '9' }

  predicate AllDigits(s: string) { forall i :: 0 <= i < |s| ==> IsDigit(s[i]) }

  /** The value of a decimal digit string (leading zeros allowed, as int() allows them). */
  function DigitsValue(d: string): nat
    requires AllDigits(d)
  {
    if d == [] then 0 else DigitsValue(d[..|d| - 1]) * 10 + (d[|d| - 1] as int - '0' as int)
  }

  /**
   * `int(s)` in base 10: surrounding whitespace is ignored, one optional sign, then at
   * least one digit; anything else raises ValueError, modelled as None.
   */
  function ParseInt(s: string): Option<int>
  {
    var t := Strip(s, Whitespace);
    if t == [] then None
    else
      var body := if t[0] == '+' || t[0] == '-' then t[1..] else t;
      if body != [] && AllDigits(body) then
        var n: int := DigitsValue(body);
        var v := if t[0] == '-' then -n else n;
        Some(v)
      else None
  }

  /** `str(n)` for a natural number: decimal, no leading zeros. */
  function NatToString(n: nat): (r: string)
    ensures r != [] && AllDigits(r)
  {
    if n < 10 then [('0' as int + n) as char]
    else NatToString(n / 10) + [('0' as int + n % 10) as char]
  }

  /** `int(str(n)) == n`: the decimal rendering reads back as the same number. */
  lemma {:induction false} ParseIntNatToString(n: nat)
    ensures ParseInt(NatToString(n)) == Some(n)
  {
    var r := NatToString(n);
    DigitsValueNatToString(n);
    NoSpaceStripped(r);
  }

  lemma {:induction false} DigitsValueNatToString(n: nat)
    ensures DigitsValue(NatToString(n)) == n
    decreases n
  {
    if n >= 10 {
      var p := NatToString(n / 10);
      var r := p + [('0' as int + n % 10) as char];
      assert r[..|r| - 1] == p;
      DigitsValueNatToString(n / 10);
    }
  }

  /** A sequence is its three slices at two cut points put back together. */
  lemma Slices3<T>(s: seq<T>, i: nat, j: nat)
    requires i <= j <= |s|
    ensures s[..i] + s[i..j] + s[j..] == s
  {
  }

  /** Concatenation regroups; stated once so that callers can use it on large terms. */
  lemma ConcatAssoc<T>(a: seq<T>, b: seq<T>, c: seq<T>)
    ensures a + b + c == a + (b + c)
  {
  }

  /** `lstrip` leaves a text that does not start with a stripped character as it is. */
  lemma LStripStop(s: string, chars: set<char>)
    requires s != [] && s[0] !in chars
    ensures LStrip(s, chars) == s
  {
  }

  /** `rstrip` removes a trailing run of stripped characters and stops at the first other one. */
  lemma {:induction false} RStripSuffix(a: string, b: string, chars: set<char>)
    requires a == [] || a[|a| - 1] !in chars
    requires forall i :: 0 <= i < |b| ==> b[i] in chars
    ensures RStrip(a + b, chars) == a
    decreases |b|
  {
    if b == [] {
      assert a + b == a;
    } else {
      assert (a + b)[..|a + b| - 1] == a + b[..|b| - 1];
      RStripSuffix(a, b[..|b| - 1], chars);
    }
  }

  lemma NoSpaceStripped(r: string)
    requires r != [] && AllDigits(r)
    ensures Strip(r, Whitespace) == r
  {
    assert r[0] !in Whitespace;
    assert LStrip(r, Whitespace) == r;
    assert r[|r| - 1] !in Whitespace;
  }

  /** Different numbers have different decimal renderings. */
  lemma NatToStringInjective(m: nat, n: nat)
    requires NatToString(m) == NatToString(n)
    ensures m == n
  {
    ParseIntNatToString(m);
    ParseIntNatToString(n);
  }

  /** `s.split(sep)` cuts at the first occurrence of `sep` and splits the rest. */
  lemma SplitOnCut(s: string, sep: string, k: nat)
    requires sep != [] && Find(s, sep) == Some(k)
    ensures SplitOn(s, sep) == [s[..k]] + SplitOn(s[k + |sep|..], sep)
  {
  }

  /** With cuts left, `s.split(sep, maxsplit)` cuts at the first occurrence and splits the rest with one cut fewer. */
  lemma SplitMaxCut(s: string, sep: string, maxsplit: nat, k: nat)
    requires sep != [] && maxsplit > 0 && Find(s, sep) == Some(k)
    ensures SplitMax(s, sep, maxsplit) == [s[..k]] + SplitMax(s[k + |sep|..], sep, maxsplit - 1)
  {
  }

  /** Without cuts left or without an occurrence, `s.split(sep, maxsplit)` is `s` alone. */
  lemma SplitMaxWhole(s: string, sep: string, maxsplit: nat)
    requires sep != [] && (maxsplit == 0 || Find(s, sep).None?)
    ensures SplitMax(s, sep, maxsplit) == [s]
  {
  }

  /** `s.split(sep, maxsplit)` has at most `maxsplit + 1` pieces. */
  lemma {:induction false} SplitMaxLength(s: string, sep: string, maxsplit: nat)
    requires sep != []
    ensures |SplitMax(s, sep, maxsplit)| <= maxsplit + 1
    decreases maxsplit
  {
    var found := Find(s, sep);
    if maxsplit == 0 || found.None? {
      SplitMaxWhole(s, sep, maxsplit);
      assert |SplitMax(s, sep, maxsplit)| == 1;
    } else {
      var k := found.value;
      SplitMaxLength(s[k + |sep|..], sep, maxsplit - 1);
      SplitMaxCut(s, sep, maxsplit, k);
    }
  }

  /** `sep.join(s.split(sep)) == s`. */
  lemma {:induction false} JoinSplitOn(s: string, sep: string)
    requires sep != []
    ensures Join(sep, SplitOn(s, sep)) == s
    decreases |s|
  {
    match Find(s, sep)
    case None =>
    case Some(k) =>
      var rest := s[k + |sep|..];
      var pieces := SplitOn(rest, sep);
      SplitOnCut(s, sep, k);
      JoinSplitOn(rest, sep);
      JoinCons(sep, s[..k], pieces);
      assert OccursAt(s, sep, k);
      Slices3(s, k, k + |sep|);
  }

  /** `sep.join(s.split(sep, maxsplit)) == s`. */
  lemma {:induction false} JoinSplitMax(s: string, sep: string, maxsplit: nat)
    requires sep != []
    ensures Join(sep, SplitMax(s, sep, maxsplit)) == s
    decreases maxsplit
  {
    var found := Find(s, sep);
    if maxsplit == 0 || found.None? {
      JoinSplitMaxWhole(s, sep, maxsplit);
    } else {
      var k := found.value;
      JoinSplitMax(s[k + |sep|..], sep, maxsplit - 1);
      JoinSplitMaxCut(s, sep, maxsplit, k);
    }
  }

  lemma JoinSplitMaxWhole(s: string, sep: string, maxsplit: nat)
    requires sep != [] && (maxsplit == 0 || Find(s, sep).None?)
    ensures Join(sep, SplitMax(s, sep, maxsplit)) == s
  {
    SplitMaxWhole(s, sep, maxsplit);
  }

  lemma JoinSplitMaxCut(s: string, sep: string, maxsplit: nat, k: nat)
    requires sep != [] && maxsplit > 0 && Find(s, sep) == Some(k)
    requires Join(sep, SplitMax(s[k + |sep|..], sep, maxsplit - 1)) == s[k + |sep|..]
    ensures Join(sep, SplitMax(s, sep, maxsplit)) == s
  {
    var rest := s[k + |sep|..];
    var pieces := SplitMax(rest, sep, maxsplit - 1);
    SplitMaxCut(s, sep, maxsplit, k);
    JoinCons(sep, s[..k], pieces);
    assert OccursAt(s, sep, k);
    Slices3(s, k, k + |sep|);
  }

  /** Joining one more part appends the separator and that part. */
  lemma {:induction false} JoinSnoc(sep: string, parts: seq<string>, last: string)
    requires |parts| >= 1
    ensures Join(sep, parts + [last]) == Join(sep, parts) + sep + last
    decreases |parts|
  {
    if |parts| == 1 {
      assert parts + [last] == [parts[0]] + [last];
      JoinCons(sep, parts[0], [last]);
    } else {
      assert parts + [last] == [parts[0]] + (parts[1..] + [last]);
      JoinCons(sep, parts[0], parts[1..] + [last]);
      JoinSnoc(sep, parts[1..], last);
      JoinCons(sep, parts[0], parts[1..]);
      assert parts == [parts[0]] + parts[1..];
    }
  }

  lemma JoinCons(sep: string, head: string, tail: seq<string>)
    requires |tail| >= 1
    ensures Join(sep, [head] + tail) == head + sep + Join(sep, tail)
  {
    assert ([head] + tail)[1..] == tail;
  }

  /** No piece of `s.split(c)` contains the separator character `c`. */
  lemma {:induction false} SplitOnCharPieces(s: string, c: char)
    ensures forall p :: p in SplitOn(s, [c]) ==> c !in p
    decreases |s|
  {
    match Find(s, [c])
    case None =>
      forall i | 0 <= i < |s| ensures s[i] != c {
        assert !OccursAt(s, [c], i);
      }
    case Some(k) =>
      forall i | 0 <= i < k ensures s[i] != c {
        assert !OccursAt(s, [c], i);
      }
      SplitOnCharPieces(s[k + 1..], c);
  }

  /** A string without `pat` splits into itself alone. */
  lemma SplitOnAbsent(s: string, sep: string)
    requires sep != [] && !Contains(s, sep)
    ensures SplitOn(s, sep) == [s]
  {
  }

  /** A separator character absent from `x`: splitting `x + [c] + rest` cuts right after `x`. */
  lemma SplitOnCharCons(x: string, c: char, rest: string)
    requires c !in x
    ensures SplitOn(x + [c] + rest, [c]) == [x] + SplitOn(rest, [c])
  {
    var s := x + [c] + rest;
    assert OccursAt(s, [c], |x|) by { assert s[|x|..|x| + 1] == [c]; }
    forall k | 0 <= k < |x| ensures !OccursAt(s, [c], k) {
      assert s[k] == x[k];
      assert s[k..k + 1] == [s[k]];
    }
    assert Find(s, [c]) == Some(|x|);
    assert s[..|x|] == x && s[|x| + 1..] == rest;
  }

  lemma SplitOnCharAbsent(s: string, c: char)
    requires c !in s
    ensures SplitOn(s, [c]) == [s]
  {
    forall k: nat | k < |s| ensures !OccursAt(s, [c], k) {
      assert s[k..k + 1] == [s[k]];
    }
  }

  /** With cuts left, a separator character absent from `x` cuts `x + [c] + rest` right after `x`. */
  lemma SplitMaxCharCons(x: string, c: char, rest: string, maxsplit: nat)
    requires c !in x && maxsplit > 0
    ensures SplitMax(x + [c] + rest, [c], maxsplit) == [x] + SplitMax(rest, [c], maxsplit - 1)
  {
    var s := x + [c] + rest;
    assert OccursAt(s, [c], |x|) by { assert s[|x|..|x| + 1] == [c]; }
    forall k | 0 <= k < |x| ensures !OccursAt(s, [c], k) {
      assert s[k] == x[k];
      assert s[k..k + 1] == [s[k]];
    }
    assert Find(s, [c]) == Some(|x|);
    assert s[..|x|] == x && s[|x| + 1..] == rest;
  }

  lemma SplitMaxCharAbsent(s: string, c: char, maxsplit: nat)
    requires c !in s
    ensures SplitMax(s, [c], maxsplit) == [s]
  {
    forall k: nat | k < |s| ensures !OccursAt(s, [c], k) {
      assert s[k..k + 1] == [s[k]];
    }
  }

  /** Splitting on `c` undoes joining with `c` when no part contains `c`. */
  lemma {:induction false} SplitOnJoin(parts: seq<string>, c: char)
    requires |parts| >= 1
    requires forall i :: 0 <= i < |parts| ==> c !in parts[i]
    ensures SplitOn(Join([c], parts), [c]) == parts
  {
    if |parts| == 1 {
      SplitOnCharAbsent(parts[0], c);
    } else {
      var tail := Join([c], parts[1..]);
      assert Join([c], parts) == parts[0] + [c] + tail;
      SplitOnCharCons(parts[0], c, tail);
      SplitOnJoin(parts[1..], c);
      assert parts == [parts[0]] + parts[1..];
    }
  }

  /** Joining strings that avoid `c` with a separator that avoids `c` gives a string without `c`. */
  lemma {:induction false} JoinAvoids(sep: string, parts: seq<string>, c: char)
    requires c !in sep
    requires forall i :: 0 <= i < |parts| ==> c !in parts[i]
    ensures c !in Join(sep, parts)
  {
    if |parts| > 1 {
      JoinAvoids(sep, parts[1..], c);
    }
  }

  /** The pieces of a split are pieces of the original: a character absent from `s` is absent from each. */
  lemma {:induction false} SplitOnAvoids(s: string, sep: string, c: char)
    requires sep != [] && c !in s
    ensures forall p :: p in SplitOn(s, sep) ==> c !in p
    decreases |s|
  {
    match Find(s, sep)
    case None =>
    case Some(k) =>
      assert forall i :: 0 <= i < k ==> s[..k][i] == s[i];
      SplitOnAvoids(s[k + |sep|..], sep, c);
  }
  /** A non-blank stripped line has a first word. */
  lemma StrippedHasWords(line: string)
    requires Strip(line, Whitespace) != []
    ensures Words(Strip(line, Whitespace)) != []
  {
    var l := LStrip(line, Whitespace);
    var o := RStrip(l, Whitespace);
    assert o[0] == l[0];
    assert !IsSpace(o[0]);
  }

  /** `s` with every `d` turned into `c`. */
  function MapChar(s: string, d: char, c: char): (r: string)
    ensures |r| == |s|
    ensures forall i :: 0 <= i < |s| ==> r[i] == (if s[i] == d then c else s[i])
  {
    seq(|s|, i requires 0 <= i < |s| => if s[i] == d then c else s[i])
  }

  /** Where a one-character pattern first occurs: nothing before it is that character. */
  lemma FindChar(s: string, c: char)
    ensures Find(s, [c]).None? ==> c !in s
    ensures Find(s, [c]).Some? ==> var k := Find(s, [c]).value;
      k < |s| && c !in s[..k] && s == s[..k] + [c] + s[k + 1..]
  {
    var r := Find(s, [c]);
    forall i | 0 <= i < |s| && (r.None? || i < r.value) ensures s[i] != c {
      assert !OccursAt(s, [c], i);
      assert s[i..i + 1] == [s[i]];
    }
    if r.Some? {
      var k := r.value;
      assert s[k..k + 1] == [c];
      assert s == s[..k] + [c] + s[k + 1..];
    }
  }

  /** `s.replace(d, c)` for one-character strings is a character-by-character map. */
  lemma {:induction false} ReplaceCharIsMapChar(s: string, d: char, c: char)
    ensures Replace(s, [d], [c]) == MapChar(s, d, c)
    decreases |s|
  {
    FindChar(s, d);
    match Find(s, [d])
    case None =>
      SplitOnCharAbsent(s, d);
      assert MapChar(s, d, c) == s;
    case Some(k) =>
      var x := s[..k];
      var rest := s[k + 1..];
      SplitOnCharCons(x, d, rest);
      ReplaceCharIsMapChar(rest, d, c);
      JoinCons([c], x, SplitOn(rest, [d]));
      assert MapChar(x, d, c) == x;
      MapCharConcat(x, d, c, rest);
  }

  /** Mapping characters distributes over a cut at one occurrence of `d`. */
  lemma MapCharConcat(x: string, d: char, c: char, rest: string)
    ensures MapChar(x + [d] + rest, d, c) == MapChar(x, d, c) + [c] + MapChar(rest, d, c)
  {
    var s := x + [d] + rest;
    var r := MapChar(x, d, c) + [c] + MapChar(rest, d, c);
    forall i | 0 <= i < |s| ensures MapChar(s, d, c)[i] == r[i] {
      if i < |x| {
        assert s[i] == x[i];
      } else if i > |x| {
        assert s[i] == rest[i - |x| - 1];
      }
    }
  }

  /**
   * Two strings equal except that `t` has the separator `c` exactly where `u` has
   * the separator `d` split into the same pieces.
   */
  lemma {:induction false} SplitOnCorresponding(t: string, c: char, u: string, d: char)
    requires |t| == |u|
    requires forall i :: 0 <= i < |t| ==> (t[i] == c <==> u[i] == d)
    requires forall i :: 0 <= i < |t| && t[i] != c ==> u[i] == t[i]
    ensures SplitOn(t, [c]) == SplitOn(u, [d])
    decreases |t|
  {
    FindChar(t, c);
    match Find(t, [c])
    case None =>
      forall i | 0 <= i < |t| ensures u[i] == t[i] {
        assert t[i] in t;
      }
      assert t == u;
      SplitOnCharAbsent(t, c);
      SplitOnCharAbsent(u, d);
    case Some(k) =>
      var x := t[..k];
      forall i | 0 <= i < k ensures u[i] == t[i] && t[i] != d {
        assert x[i] == t[i] && x[i] in x;
      }
      assert d !in x;
      assert t[k] == c;
      assert u[..k] == x;
      assert u == u[..k] + [d] + u[k + 1..];
      var t', u' := t[k + 1..], u[k + 1..];
      forall i | 0 <= i < |t'| ensures (t'[i] == c <==> u'[i] == d) && (t'[i] != c ==> u'[i] == t'[i]) {
        assert t'[i] == t[i + k + 1] && u'[i] == u[i + k + 1];
      }
      SplitOnCharCons(x, c, t');
      SplitOnCharCons(x, d, u');
      SplitOnCorresponding(t', c, u', d);
  }
}
