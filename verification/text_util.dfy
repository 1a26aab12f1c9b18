/** Character classes and string helpers shared by both editor widgets.
    Python's str.isspace, \w, lstrip/rstrip and "\n".join are modelled on
    ASCII; '\n' is the only line break. */
module TextUtil {

  datatype Option<T> = None | Some(value: T)

  /** The outcome of an input validator: success, or failure with the
      message shown to the user. */
  datatype Validation = Success | Failure(message: string)

  /** ASCII subset of Python's str.isspace: space, \t \n \v \f \r and \x1c-\x1f. */
  predicate IsSpace(c: char)
  {
    c == ' ' || (9 <= c as int <= 13) || (28 <= c as int <= 31)
  }

  /** ASCII subset of the regex class \w. */
  predicate IsWordChar(c: char)
  {
    ('a' <= c <= 'z') || ('A' <= c <= 'Z') || ('0' <= c <= '9') || c == '_'
  }

  /** Python's str.isspace(): non-empty and whitespace only. */
  predicate IsBlank(s: string)
  {
    |s| > 0 && forall i :: 0 <= i < |s| ==> IsSpace(s[i])
  }

  predicate StartsWith(s: string, p: string)
  {
    |p| <= |s| && s[..|p|] == p
  }

  predicate EndsWith(s: string, p: string)
  {
    |p| <= |s| && s[|s| - |p|..] == p
  }

  /** The index of the first non-whitespace character of s at or after i
      (|s| when there is none). */
  function LeadingFrom(s: string, i: nat): (n: nat)
    requires i <= |s|
    decreases |s| - i
    ensures i <= n <= |s|
    ensures forall j :: i <= j < n ==> IsSpace(s[j])
    ensures n < |s| ==> !IsSpace(s[n])
  {
    if i < |s| && IsSpace(s[i]) then LeadingFrom(s, i + 1) else i
  }

  /** Number of leading whitespace characters: len(s) - len(s.lstrip()). */
  function LeadingWidth(s: string): (n: nat)
    ensures n <= |s|
    ensures forall j :: 0 <= j < n ==> IsSpace(s[j])
    ensures n < |s| ==> !IsSpace(s[n])
  {
    LeadingFrom(s, 0)
  }

  /** From i, the whitespace run ends at the one index n that ends a run of
      whitespace and is followed by no whitespace. */
  lemma {:induction false} LeadingFromUnique(s: string, i: nat, n: nat)
    requires i <= n <= |s|
    requires forall j :: i <= j < n ==> IsSpace(s[j])
    requires n < |s| ==> !IsSpace(s[n])
    ensures LeadingFrom(s, i) == n
    decreases n - i
  {
    if i < n {
      assert IsSpace(s[i]);
      LeadingFromUnique(s, i + 1, n);
    }
  }

  /** The leading width is the one index that ends a whitespace run and
      starts the rest. */
  lemma LeadingUnique(s: string, n: nat)
    requires n <= |s|
    requires forall j :: 0 <= j < n ==> IsSpace(s[j])
    requires n < |s| ==> !IsSpace(s[n])
    ensures LeadingWidth(s) == n
  {
    LeadingFromUnique(s, 0, n);
  }

  /** Python's str.lstrip(): drops leading whitespace. */
  function LStrip(s: string): (r: string)
    ensures |r| <= |s| && r == s[|s| - |r|..] && |s| - |r| == LeadingWidth(s)
    ensures forall i :: 0 <= i < |s| - |r| ==> IsSpace(s[i])
    ensures r == [] || !IsSpace(r[0])
  {
    s[LeadingWidth(s)..]
  }

  /** Python's str.lstrip(c) for a single character c. */
  function LStripChar(s: string, c: char): (r: string)
    ensures |r| <= |s| && r == s[|s| - |r|..]
    ensures forall i :: 0 <= i < |s| - |r| ==> s[i] == c
    ensures r == [] || r[0] != c
  {
    if |s| > 0 && s[0] == c then LStripChar(s[1..], c) else s
  }

  /** Python's str.rstrip(): drops trailing whitespace. */
  function RStrip(s: string): (r: string)
    ensures |r| <= |s| && r == s[..|r|]
    ensures forall i :: |r| <= i < |s| ==> IsSpace(s[i])
    ensures r == [] || !IsSpace(r[|r| - 1])
  {
    if |s| > 0 && IsSpace(s[|s| - 1]) then RStrip(s[..|s| - 1]) else s
  }

  /** Python's string repetition s * n. */
  function Repeat(s: string, n: nat): (r: string)
    ensures |r| == |s| * n
  {
    if n == 0 then "" else Repeat(s, n - 1) + s
  }

  /** Repeating a whitespace-only unit gives a whitespace-only string. */
  lemma {:induction false} RepeatSpaces(s: string, n: nat)
    requires forall i :: 0 <= i < |s| ==> IsSpace(s[i])
    ensures forall i :: 0 <= i < |Repeat(s, n)| ==> IsSpace(Repeat(s, n)[i])
  {
    if n > 0 {
      RepeatSpaces(s, n - 1);
      var r := Repeat(s, n - 1);
      assert Repeat(s, n) == r + s;
      forall i | 0 <= i < |r + s| ensures IsSpace((r + s)[i]) {
        if i < |r| { assert (r + s)[i] == r[i]; } else { assert (r + s)[i] == s[i - |r|]; }
      }
    }
  }

  /** A string of n copies of the character c. */
  function Chars(c: char, n: nat): (r: string)
    ensures |r| == n
    ensures forall i :: 0 <= i < n ==> r[i] == c
  {
    seq(n, _ => c)
  }

  function Spaces(n: nat): string
  {
    Chars(' ', n)
  }

  /** Stripping a whitespace prefix then stripping again changes nothing more. */
  lemma LStripAfterWhitespace(ws: string, s: string)
    requires forall i :: 0 <= i < |ws| ==> IsSpace(ws[i])
    ensures LStrip(ws + s) == LStrip(s)
  {
    var t := ws + s;
    var n := LeadingWidth(s);
    forall j | 0 <= j < |ws| + n ensures IsSpace(t[j]) {
      if j < |ws| { assert t[j] == ws[j]; } else { assert t[j] == s[j - |ws|]; }
    }
    if |ws| + n < |t| {
      assert t[|ws| + n] == s[n];
    }
    LeadingUnique(t, |ws| + n);
    assert t[|ws| + n..] == s[n..];
  }

  lemma LStripIdempotent(s: string)
    ensures LStrip(LStrip(s)) == LStrip(s)
  {
    var r := LStrip(s);
    LeadingUnique(r, 0);
  }

  /** Lines put in place of a cut line: the head is prefixed to the first
      piece and the tail appended to the last, as the editors do when they
      insert text or paste lines. */
  function Glue(head: string, pieces: seq<string>, tail: string): (r: seq<string>)
    requires |pieces| > 0
    ensures |r| == |pieces|
  {
    if |pieces| == 1 then [head + pieces[0] + tail]
    else [head + pieces[0]] + pieces[1..|pieces| - 1] + [pieces[|pieces| - 1] + tail]
  }

  /** Splits on '\n' (Python's text.split("\n")): one more piece than there are breaks. */
  function Split(t: string): (r: seq<string>)
    ensures |r| >= 1
    ensures forall k :: 0 <= k < |r| ==> '\n' !in r[k]
  {
    if t == [] then [""]
    else if t[0] == '\n' then [""] + Split(t[1..])
    else
      var rest := Split(t[1..]);
      [[t[0]] + rest[0]] + rest[1..]
  }

  /** "\n".join(pieces). */
  function Join(pieces: seq<string>): string
  {
    if |pieces| == 0 then ""
    else if |pieces| == 1 then pieces[0]
    else pieces[0] + "\n" + Join(pieces[1..])
  }

  /** Number of occurrences of c in s. */
  function Count(s: string, c: char): nat
  {
    if s == [] then 0 else (if s[0] == c then 1 else 0) + Count(s[1..], c)
  }

  /** Splitting yields one piece per line break plus one. */
  lemma {:induction false} SplitCount(t: string)
    ensures |Split(t)| == Count(t, '\n') + 1
  {
    if t != [] {
      SplitCount(t[1..]);
    }
  }

  /** Joining the pieces of a split gives the text back. */
  lemma {:induction false} JoinSplit(t: string)
    ensures Join(Split(t)) == t
  {
    if t == [] {
    } else if t[0] == '\n' {
      JoinSplit(t[1..]);
      assert t == "\n" + t[1..];
    } else {
      var rest := Split(t[1..]);
      JoinSplit(t[1..]);
      if |rest| == 1 {
        assert t == [t[0]] + t[1..];
      } else {
        assert Split(t)[1..] == rest[1..];
        assert Join(Split(t)) == [t[0]] + rest[0] + "\n" + Join(rest[1..]);
        assert t == [t[0]] + t[1..];
      }
    }
  }

  /** A text without line breaks is a single piece. */
  lemma {:induction false} SplitNoBreak(t: string)
    requires '\n' !in t
    ensures Split(t) == [t]
  {
    if t != [] {
      assert '\n' !in t[1..] by { assert forall i :: 0 <= i < |t[1..]| ==> t[1..][i] == t[i + 1]; }
      SplitNoBreak(t[1..]);
      assert [t[0]] + t[1..] == t;
    }
  }

  /** A piece without a break, then a break: the split starts with that piece. */
  lemma {:induction false} SplitAfterPiece(a: string, b: string)
    requires '\n' !in a
    ensures Split(a + "\n" + b) == [a] + Split(b)
  {
    var t := a + "\n" + b;
    if a == [] {
      assert t[0] == '\n' && t[1..] == b;
    } else {
      assert t[0] == a[0] && t[1..] == a[1..] + "\n" + b;
      assert '\n' !in a[1..] by { assert forall i :: 0 <= i < |a[1..]| ==> a[1..][i] == a[i + 1]; }
      SplitAfterPiece(a[1..], b);
      assert [a[0]] + a[1..] == a;
    }
  }

  /** Splitting what was joined gives the pieces back when none holds a break. */
  lemma {:induction false} SplitJoin(pieces: seq<string>)
    requires |pieces| > 0 && forall k :: 0 <= k < |pieces| ==> '\n' !in pieces[k]
    ensures Split(Join(pieces)) == pieces
  {
    if |pieces| == 1 {
      SplitNoBreak(pieces[0]);
    } else {
      SplitJoin(pieces[1..]);
      SplitAfterPiece(pieces[0], Join(pieces[1..]));
      assert pieces == [pieces[0]] + pieces[1..];
    }
  }

  /** Euclidean division is determined by quotient and remainder. */
  lemma ModUnique(n: int, d: int, r: int, w: int)
    requires w > 0 && 0 <= r < w && n == d * w + r
    ensures n % w == r && n / w == d
  {
    var q := n / w;
    var m := n % w;
    assert n == q * w + m;
    var t := d - q;
    assert t * w == m - r;
    if t >= 1 {
      assert t * w >= w by { MulAtLeast(t, w); }
    } else if t <= -1 {
      assert (-t) * w >= w by { MulAtLeast(-t, w); }
    }
  }

  lemma MulAtLeast(t: int, w: int)
    requires t >= 1 && w > 0
    ensures t * w >= w
  {
  }

  /** x + (w - x % w) is the next multiple of w above x. */
  lemma NextMultiple(x: nat, w: nat)
    requires w > 0
    ensures (x + (w - x % w)) % w == 0
    ensures (x + (w - x % w)) / w == x / w + 1
  {
    var q := x / w;
    assert x == q * w + x % w;
    assert x + (w - x % w) == (q + 1) * w + 0;
    ModUnique(x + (w - x % w), q + 1, 0, w);
  }
}
