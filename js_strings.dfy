/** The JavaScript string primitives the tokenizer relies on: the whitespace
    class shared by `\s` and `String.prototype.trim`, `trim` itself, and
    `split` with a one-character separator such as `'\n'`. */
module JsStrings {

  /** ECMAScript WhiteSpace and LineTerminator code points: tab, line
      tabulation, form feed, the Unicode space separators, no-break space,
      the byte order mark, line feed, carriage return, and the line and
      paragraph separators. */
  const WsChars: set<char> := {
    '\t', '\n', '\U{B}', '\U{C}', '\r', ' ', '\U{A0}', '\U{1680}',
    '\U{2000}', '\U{2001}', '\U{2002}', '\U{2003}', '\U{2004}', '\U{2005}',
    '\U{2006}', '\U{2007}', '\U{2008}', '\U{2009}', '\U{200A}',
    '\U{2028}', '\U{2029}', '\U{202F}', '\U{205F}', '\U{3000}', '\U{FEFF}'
  }

  /** A regular expression's `\s` matches exactly these characters, and
      `trim` strips exactly these from both ends. */
  predicate IsWs(c: char) {
    c in WsChars
  }

  /** Visible ASCII characters, letters and digits among them, are not whitespace. */
  lemma VisibleNotWs(c: char)
    requires '!' <= c <= '~'
    ensures !IsWs(c)
  {
  }

  predicate AllWs(s: string) {
    forall i | 0 <= i < |s| :: IsWs(s[i])
  }

  /** What `trim` leaves: empty, or starting and ending with a non-whitespace character. */
  predicate IsTrimmed(s: string) {
    s == [] || (!IsWs(s[0]) && !IsWs(s[|s| - 1]))
  }

  // ---------------------------------------------------------------------------
  // trim

  /** The end of the maximal whitespace run that starts at i: the first
      position at or after i that does not hold whitespace (|s| when there is
      none). */
  function WsRunEnd(s: string, i: nat): (j: nat)
    requires i <= |s|
    ensures i <= j <= |s|
    ensures forall k | i <= k < j :: IsWs(s[k])
    ensures j == |s| || !IsWs(s[j])
    decreases |s| - i
  {
    if i < |s| && IsWs(s[i]) then WsRunEnd(s, i + 1) else i
  }

  /** The run ends found by WsRunEnd are the only ones: any j bounding an
      all-whitespace stretch from i that cannot be extended is WsRunEnd(s, i). */
  lemma WsRunEndExact(s: string, i: nat, j: nat)
    requires i <= j <= |s|
    requires forall k | i <= k < j :: IsWs(s[k])
    requires j == |s| || !IsWs(s[j])
    ensures WsRunEnd(s, i) == j
  {
  }

  /** Scanning back from j, no further than lo: the position just after the
      last character before j that is not whitespace (lo when there is none). */
  function SkipWsBack(s: string, lo: nat, j: nat): (k: nat)
    requires lo <= j <= |s|
    ensures lo <= k <= j
    ensures forall m | k <= m < j :: IsWs(s[m])
    ensures k == lo || !IsWs(s[k - 1])
    decreases j
  {
    if lo < j && IsWs(s[j - 1]) then SkipWsBack(s, lo, j - 1) else j
  }

  /** `s.trim()`: the slice of s between the first and the last character
      that is not whitespace. The result is trimmed and is empty exactly when
      s is all whitespace; TrimWithin and TrimPadded say which slice it is. */
  function Trim(s: string): (r: string)
    ensures IsTrimmed(r)
    ensures r == [] <==> AllWs(s)
  {
    var i := WsRunEnd(s, 0);
    var j := SkipWsBack(s, i, |s|);
    assert AllWs(s) ==> i == |s|;
    s[i..j]
  }

  /** Trim(s) is s with an all-whitespace prefix and an all-whitespace suffix
      removed. */
  lemma TrimWithin(s: string)
    ensures exists i, j | 0 <= i <= j <= |s| ::
      && s[i..j] == Trim(s)
      && AllWs(s[..i])
      && AllWs(s[j..])
  {
    var i := WsRunEnd(s, 0);
    var j := SkipWsBack(s, i, |s|);
    assert AllWs(s[..i]) by {
      forall k | 0 <= k < i ensures IsWs(s[..i][k]) {
        assert s[..i][k] == s[k];
      }
    }
    assert AllWs(s[j..]) by {
      forall k | 0 <= k < |s| - j ensures IsWs(s[j..][k]) {
        assert s[j..][k] == s[j + k];
      }
    }
    assert s[i..j] == Trim(s);
  }

  /** Trimming whitespace-padded text that is already trimmed gives that text
      back: with TrimWithin, trim strips exactly the whitespace at the two
      ends and nothing else. */
  lemma TrimPadded(lead: string, mid: string, trail: string)
    requires AllWs(lead) && AllWs(trail) && IsTrimmed(mid)
    ensures Trim(lead + mid + trail) == mid
  {
    var s := lead + mid + trail;
    var a, b := |lead|, |lead| + |mid|;
    assert forall k | 0 <= k < a :: s[k] == lead[k];
    assert forall k | b <= k < |s| :: s[k] == trail[k - b];
    if mid == [] {
      assert AllWs(s) by {
        forall k | 0 <= k < |s| ensures IsWs(s[k]) {
          if k < a { assert s[k] == lead[k]; } else { assert s[k] == trail[k - b]; }
        }
      }
    } else {
      assert s[a] == mid[0] && s[b - 1] == mid[|mid| - 1];
      var i := WsRunEnd(s, 0);
      assert i == a;
      var j := SkipWsBack(s, i, |s|);
      assert j == b;
      assert s[a..b] == mid;
    }
  }

  /** `trim` leaves an already trimmed string alone. */
  lemma TrimTrimmed(s: string)
    requires IsTrimmed(s)
    ensures Trim(s) == s
  {
    if s != [] {
      assert WsRunEnd(s, 0) == 0;
      assert SkipWsBack(s, 0, |s|) == |s|;
      assert s[0..|s|] == s;
    }
  }

  /** `trim` is idempotent. */
  lemma TrimIdempotent(s: string)
    ensures Trim(Trim(s)) == Trim(s)
  {
    TrimTrimmed(Trim(s));
  }

  // ---------------------------------------------------------------------------
  // split with a one-character separator

  /** The inverse of `split`: the parts with one sep between each two. */
  function JoinOn(parts: seq<string>, sep: char): string
    requires |parts| >= 1
  {
    if |parts| == 1 then parts[0] else parts[0] + [sep] + JoinOn(parts[1..], sep)
  }

  /** Number of occurrences of c in s. */
  function Count(s: string, c: char): nat {
    if s == [] then 0 else (if s[0] == c then 1 else 0) + Count(s[1..], c)
  }

  /** `s.split(sep)` for a one-character separator: the pieces of s between
      the occurrences of sep. The empty string gives one empty piece. */
  function SplitOn(s: string, sep: char): (parts: seq<string>)
    ensures |parts| == Count(s, sep) + 1
    ensures forall i | 0 <= i < |parts| :: sep !in parts[i]
    ensures JoinOn(parts, sep) == s
    decreases |s|
  {
    if |s| == 0 then [""]
    else
      var rest := SplitOn(s[1..], sep);
      if s[0] == sep then [""] + rest
      else
        var parts := [[s[0]] + rest[0]] + rest[1..];
        assert JoinOn(parts, sep) == s by {
          if |rest| > 1 {
            assert parts[1..] == rest[1..];
          }
        }
        parts
  }

  /** `split` undoes JoinOn when no part contains the separator; with
      SplitOn's contract this makes the pieces the unique such decomposition. */
  lemma {:induction false} SplitOnJoinOn(parts: seq<string>, sep: char)
    requires |parts| >= 1
    requires forall i | 0 <= i < |parts| :: sep !in parts[i]
    ensures SplitOn(JoinOn(parts, sep), sep) == parts
    decreases |parts|, |parts[0]|
  {
    var s := JoinOn(parts, sep);
    var p := parts[0];
    if p == [] {
      if |parts| > 1 {
        assert s[1..] == JoinOn(parts[1..], sep) by {
          assert s == [sep] + JoinOn(parts[1..], sep);
        }
        SplitOnJoinOn(parts[1..], sep);
        assert SplitOn(s, sep) == [""] + parts[1..];
        assert [""] + parts[1..] == parts;
      }
    } else {
      var parts' := [p[1..]] + parts[1..];
      assert forall i | 0 <= i < |parts'| :: sep !in parts'[i] by {
        forall i | 0 <= i < |parts'| ensures sep !in parts'[i] {
          if i > 0 { assert parts'[i] == parts[i]; }
        }
      }
      assert JoinOn(parts', sep) == s[1..] by {
        if |parts| > 1 {
          assert parts'[1..] == parts[1..];
          assert s == [p[0]] + (p[1..] + [sep] + JoinOn(parts[1..], sep));
        }
      }
      SplitOnJoinOn(parts', sep);
      assert SplitOn(s, sep) == [[p[0]] + p[1..]] + parts[1..] by {
        assert s[0] == p[0];
        assert parts'[1..] == parts[1..];
      }
      assert [[p[0]] + p[1..]] + parts[1..] == parts by {
        assert [p[0]] + p[1..] == p;
      }
    }
  }

  /** A string that does not contain sep splits into one piece: itself. */
  lemma SplitOnWithout(s: string, sep: char)
    requires sep !in s
    ensures SplitOn(s, sep) == [s]
  {
    SplitOnJoinOn([s], sep);
  }

  /** Joining two lists of parts is joining each and putting sep between. */
  lemma {:induction false} JoinOnAppend(xs: seq<string>, ys: seq<string>, sep: char)
    requires |xs| >= 1 && |ys| >= 1
    ensures JoinOn(xs + ys, sep) == JoinOn(xs, sep) + [sep] + JoinOn(ys, sep)
    decreases |xs|
  {
    assert (xs + ys)[0] == xs[0];
    if |xs| > 1 {
      assert (xs + ys)[1..] == xs[1..] + ys;
      JoinOnAppend(xs[1..], ys, sep);
    } else {
      assert (xs + ys)[1..] == ys;
    }
  }

  /** Splitting at one separator splits the two sides independently. */
  lemma SplitOnAppend(a: string, b: string, sep: char)
    ensures SplitOn(a + [sep] + b, sep) == SplitOn(a, sep) + SplitOn(b, sep)
  {
    var xs, ys := SplitOn(a, sep), SplitOn(b, sep);
    JoinOnAppend(xs, ys, sep);
    assert forall i | 0 <= i < |xs + ys| :: sep !in (xs + ys)[i] by {
      forall i | 0 <= i < |xs + ys| ensures sep !in (xs + ys)[i] {
        if i >= |xs| { assert (xs + ys)[i] == ys[i - |xs|]; }
      }
    }
    SplitOnJoinOn(xs + ys, sep);
  }

  /** A joined string is all whitespace exactly when every part is, given a
      whitespace separator such as '\n'. */
  lemma {:induction false} JoinOnAllWs(parts: seq<string>, sep: char)
    requires |parts| >= 1 && IsWs(sep)
    ensures AllWs(JoinOn(parts, sep)) <==> forall i | 0 <= i < |parts| :: AllWs(parts[i])
    decreases |parts|
  {
    if |parts| > 1 {
      JoinOnAllWs(parts[1..], sep);
      var a, b := parts[0] + [sep], JoinOn(parts[1..], sep);
      AllWsAppend(a, b);
      AllWsAppend(parts[0], [sep]);
      assert forall i | 1 <= i < |parts| :: parts[i] == parts[1..][i - 1];
    }
  }

  lemma AllWsAppend(a: string, b: string)
    ensures AllWs(a + b) <==> AllWs(a) && AllWs(b)
  {
    if AllWs(a) && AllWs(b) {
      forall i | 0 <= i < |a + b| ensures IsWs((a + b)[i]) {
        if i >= |a| { assert (a + b)[i] == b[i - |a|]; }
      }
    }
    if AllWs(a + b) {
      forall i | 0 <= i < |a| ensures IsWs(a[i]) { assert (a + b)[i] == a[i]; }
      forall i | 0 <= i < |b| ensures IsWs(b[i]) { assert (a + b)[|a| + i] == b[i]; }
    }
  }
}
