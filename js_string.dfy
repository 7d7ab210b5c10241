/** The JavaScript string built-ins that the event search relies on:
  * `toLowerCase`, `trim`, `split(/\s+/)` and `includes`.
  * A JavaScript string is modelled as a sequence of Unicode scalar values. */
module JsString {

  /** The characters matched by `\s` in a JavaScript regular expression
    * (WhiteSpace and LineTerminator of ECMA-262); `trim` strips the same set. */
  predicate IsSpace(c: char) {
    || c == '\t' || c == '\n' || c == '\U{000B}' || c == '\U{000C}' || c == '\r' || c == ' '
    || c == '\U{00A0}' || c == '\U{1680}' || ('\U{2000}' <= c && c <= '\U{200A}')
    || c == '\U{2028}' || c == '\U{2029}' || c == '\U{202F}' || c == '\U{205F}'
    || c == '\U{3000}' || c == '\U{FEFF}'
  }

  predicate AllSpace(s: string) {
    forall k :: 0 <= k < |s| ==> IsSpace(s[k])
  }

  predicate NoSpace(s: string) {
    forall k :: 0 <= k < |s| ==> !IsSpace(s[k])
  }

  // ---------------------------------------------------------------------------
  // toLowerCase / toUpperCase (ASCII letters only)

  function LowerChar(c: char): char {
    if 'A' <= c && c <= 'Z' then (c as int + 32) as char else c
  }

  function UpperChar(c: char): char {
    if 'a' <= c && c <= 'z' then (c as int - 32) as char else c
  }

  /** `toLowerCase`: only the ASCII capitals change, each into the small
    * letter with the same upper-case form, so none is left. */
  function ToLower(s: string): (r: string)
    ensures |r| == |s|
    ensures forall k :: 0 <= k < |s| ==> (r[k] == s[k] <==> !('A' <= s[k] <= 'Z'))
    ensures forall k :: 0 <= k < |s| ==> !('A' <= r[k] <= 'Z') && UpperChar(r[k]) == UpperChar(s[k])
  {
    seq(|s|, k requires 0 <= k < |s| => LowerChar(s[k]))
  }

  function ToUpper(s: string): (r: string)
    ensures |r| == |s|
  {
    seq(|s|, k requires 0 <= k < |s| => UpperChar(s[k]))
  }

  /** Lower-casing never turns a blank into a non-blank or back. */
  lemma ToLowerKeepsSpaces(s: string)
    ensures forall k :: 0 <= k < |s| ==> (IsSpace(ToLower(s)[k]) <==> IsSpace(s[k]))
    ensures AllSpace(ToLower(s)) <==> AllSpace(s)
    ensures NoSpace(ToLower(s)) <==> NoSpace(s)
  {
  }

  /** A string without ASCII capitals is its own lower-case form. */
  lemma ToLowerOfLower(s: string)
    requires forall k :: 0 <= k < |s| ==> !('A' <= s[k] <= 'Z')
    ensures ToLower(s) == s
  {
  }

  lemma ToLowerAppend(a: string, b: string)
    ensures ToLower(a + b) == ToLower(a) + ToLower(b)
  {
  }

  /** Lower-casing an upper-cased string gives the same as lower-casing the original. */
  lemma ToLowerOfUpper(s: string)
    ensures ToLower(ToUpper(s)) == ToLower(s)
  {
  }

  // ---------------------------------------------------------------------------
  // trim

  /** `trimStart`: drops the leading blanks and nothing else. */
  function TrimStart(s: string): (r: string)
    ensures |r| <= |s| && r == s[|s| - |r|..]
    ensures AllSpace(s[..|s| - |r|])
    ensures r == [] || !IsSpace(r[0])
  {
    if s != [] && IsSpace(s[0]) then
      var r := TrimStart(s[1..]);
      DropLeadingBlank(s, r);
      r
    else s
  }

  lemma DropLeadingBlank(s: string, r: string)
    requires s != [] && IsSpace(s[0])
    requires |r| <= |s| - 1 && r == s[1..][|s| - 1 - |r|..] && AllSpace(s[1..][..|s| - 1 - |r|])
    ensures r == s[|s| - |r|..] && AllSpace(s[..|s| - |r|])
  {
    assert s[..|s| - |r|] == [s[0]] + s[1..][..|s| - 1 - |r|];
  }

  /** `trimEnd`: drops the trailing blanks and nothing else. */
  function TrimEnd(s: string): (r: string)
    ensures |r| <= |s| && r == s[..|r|]
    ensures AllSpace(s[|r|..])
    ensures r == [] || !IsSpace(r[|r| - 1])
  {
    if s != [] && IsSpace(s[|s| - 1]) then
      var r := TrimEnd(s[..|s| - 1]);
      DropTrailingBlank(s, r);
      r
    else s
  }

  lemma DropTrailingBlank(s: string, r: string)
    requires s != [] && IsSpace(s[|s| - 1])
    requires |r| <= |s| - 1 && r == s[..|s| - 1][..|r|] && AllSpace(s[..|s| - 1][|r|..])
    ensures r == s[..|r|] && AllSpace(s[|r|..])
  {
    assert s[|r|..] == s[..|s| - 1][|r|..] + [s[|s| - 1]];
  }

  /** `r` is the slice of `s` at `i`, with only blanks before and after it. */
  predicate IsPaddedSlice(s: string, i: nat, r: string) {
    && i + |r| <= |s|
    && r == s[i..i + |r|]
    && AllSpace(s[..i])
    && AllSpace(s[i + |r|..])
  }

  /** `s.trim()`: the slice of `s` left between its leading and trailing runs
    * of blanks. It is empty exactly when `s` is made only of blanks, which is
    * when `!s.trim()` holds. */
  function Trim(s: string): (r: string)
    ensures exists i: nat :: IsPaddedSlice(s, i, r)
    ensures r == [] || (!IsSpace(r[0]) && !IsSpace(r[|r| - 1]))
    ensures r == [] <==> AllSpace(s)
  {
    var t := TrimStart(s);
    var r := TrimEnd(t);
    TrimParts(s, t, r);
    r
  }

  /** Trimming the start of `s` to `t` and then the end of `t` to `r` leaves
    * `r` as a slice of `s` with blanks only around it and at neither of its
    * ends; `r` is empty exactly when `s` is all blanks. */
  lemma TrimParts(s: string, t: string, r: string)
    requires |t| <= |s| && t == s[|s| - |t|..] && AllSpace(s[..|s| - |t|])
    requires t == [] || !IsSpace(t[0])
    requires r <= t && AllSpace(t[|r|..])
    requires r == [] || !IsSpace(r[|r| - 1])
    ensures exists i: nat :: IsPaddedSlice(s, i, r)
    ensures r == [] || (!IsSpace(r[0]) && !IsSpace(r[|r| - 1]))
    ensures r == [] <==> AllSpace(s)
  {
    var i := |s| - |t|;
    assert IsPaddedSlice(s, i, r) by {
      assert r == s[i..i + |r|] && t[|r|..] == s[i + |r|..];
    }
    if r == [] {
      assert t == [] by {
        assert t[0..] == t;
      }
      assert s[..|s|] == s;
    } else {
      assert s[i] == t[0] && r[0] == t[0];
    }
  }

  // ---------------------------------------------------------------------------
  // split(/\s+/)

  /** The end of the run of non-blanks that starts at `i`. */
  function WordEnd(s: string, i: nat): (k: nat)
    requires i <= |s|
    ensures i <= k <= |s|
    ensures forall m :: i <= m < k ==> !IsSpace(s[m])
    ensures k < |s| ==> IsSpace(s[k])
    decreases |s| - i
  {
    if i == |s| || IsSpace(s[i]) then i else WordEnd(s, i + 1)
  }

  /** The end of the run of blanks that starts at `i`. */
  function GapEnd(s: string, i: nat): (k: nat)
    requires i <= |s|
    ensures i <= k <= |s|
    ensures forall m :: i <= m < k ==> IsSpace(s[m])
    ensures k < |s| ==> !IsSpace(s[k])
    decreases |s| - i
  {
    if i == |s| || !IsSpace(s[i]) then i else GapEnd(s, i + 1)
  }

  /** `s.split(/\s+/)`: the pieces between the runs of blanks. A leading or a
    * trailing run gives an empty first or last piece; "" gives [""]. */
  function Split(s: string): (r: seq<string>)
    ensures |r| >= 1
    ensures forall w :: w in r ==> NoSpace(w) && Contains(s, w)
    decreases |s|
  {
    var i := WordEnd(s, 0);
    if i == |s| then [s]
    else
      var g := GapEnd(s, i);
      var rest := Split(s[g..]);
      OccursInSuffix(s, g, rest);
      assert s[..i] <= s;
      [s[..i]] + rest
  }

  /** The runs of blanks between the pieces of `Split(s)`, in order. */
  function Gaps(s: string): (r: seq<string>)
    decreases |s|
  {
    var i := WordEnd(s, 0);
    if i == |s| then []
    else
      var g := GapEnd(s, i);
      [s[i..g]] + Gaps(s[g..])
  }

  /** The pieces with the gaps between them, put back together. */
  function Interleave(pieces: seq<string>, gaps: seq<string>): string
    requires |pieces| == |gaps| + 1
    decreases |gaps|
  {
    if gaps == [] then pieces[0]
    else pieces[0] + gaps[0] + Interleave(pieces[1..], gaps[1..])
  }

  /** `s` is cut into `pieces` at the runs of blanks `gaps`: no piece holds a
    * blank, every gap is a non-empty run of blanks, only the first and the
    * last piece can be empty, and the pieces and gaps in turn make up `s`. */
  predicate IsSplitBy(s: string, pieces: seq<string>, gaps: seq<string>) {
    && |pieces| == |gaps| + 1
    && (forall k :: 0 <= k < |pieces| ==> NoSpace(pieces[k]))
    && (forall k :: 0 < k < |pieces| - 1 ==> pieces[k] != [])
    && (forall k :: 0 <= k < |gaps| ==> gaps[k] != [] && AllSpace(gaps[k]))
    && Interleave(pieces, gaps) == s
  }

  lemma ThreeSlices(s: string, i: nat, g: nat)
    requires i <= g <= |s|
    ensures s == s[..i] + s[i..g] + s[g..]
  {
  }

  /** One more piece and gap in front of a cut string. */
  lemma SplitByCons(s: string, a: string, b: string, t: string, pieces: seq<string>, gaps: seq<string>)
    requires NoSpace(a) && b != [] && AllSpace(b)
    requires IsSplitBy(t, pieces, gaps) && (|pieces| > 1 ==> pieces[0] != [])
    requires s == a + b + t
    ensures IsSplitBy(s, [a] + pieces, [b] + gaps)
  {
    var p, q := [a] + pieces, [b] + gaps;
    assert p[1..] == pieces && q[1..] == gaps;
    forall k | 0 < k < |p| - 1 ensures p[k] != [] {
      assert p[k] == pieces[k - 1];
    }
  }

  /** A cut string without its first piece and gap, which starts with a
    * non-blank unless it is empty. */
  lemma SplitByTail(s: string, pieces: seq<string>, gaps: seq<string>)
    requires IsSplitBy(s, pieces, gaps) && gaps != []
    ensures var t := Interleave(pieces[1..], gaps[1..]);
      && s == pieces[0] + gaps[0] + t
      && IsSplitBy(t, pieces[1..], gaps[1..])
      && (t == [] || !IsSpace(t[0]))
  {
    var t := Interleave(pieces[1..], gaps[1..]);
    forall k | 0 < k < |pieces| - 2 ensures pieces[1..][k] != [] {
      assert pieces[1..][k] == pieces[k + 1];
    }
    if |gaps| > 1 {
      assert pieces[1] != [];
      assert t == pieces[1] + gaps[1] + Interleave(pieces[2..], gaps[2..]);
      assert t[0] == pieces[1][0];
    }
  }

  /** The split of `s` and the runs of blanks between its pieces give back
    * `s`. */
  lemma {:induction false} SplitRoundTrip(s: string)
    ensures IsSplitBy(s, Split(s), Gaps(s))
    decreases |s|
  {
    var i := WordEnd(s, 0);
    if i < |s| {
      var g := GapEnd(s, i);
      SplitRoundTrip(s[g..]);
      SplitRoundTripStep(s, i, g);
    } else {
      SplitRoundTripLastPiece(s);
    }
  }

  /** A string without blanks splits into itself. */
  lemma SplitRoundTripLastPiece(s: string)
    requires WordEnd(s, 0) == |s|
    ensures IsSplitBy(s, Split(s), Gaps(s))
  {
    assert Split(s) == [s] && Gaps(s) == [];
    assert NoSpace(s) && Interleave([s], []) == s;
  }

  /** The inductive step of `SplitRoundTrip`: the first word and run of
    * blanks in front of the rest, which splits as `IsSplitBy` says. */
  lemma SplitRoundTripStep(s: string, i: nat, g: nat)
    requires i == WordEnd(s, 0) < |s| && g == GapEnd(s, i)
    requires IsSplitBy(s[g..], Split(s[g..]), Gaps(s[g..]))
    ensures IsSplitBy(s, Split(s), Gaps(s))
  {
    var a, b, t := s[..i], s[i..g], s[g..];
    FirstWordAndGap(s, i, g);
    ThreeSlices(s, i, g);
    SplitHeadNonEmpty(t);
    SplitByCons(s, a, b, t, Split(t), Gaps(t));
    SplitOfCons(s, a, b, t);
  }

  /** The first word has no blank, the run after it is blank, and what
    * follows starts with a non-blank. */
  lemma FirstWordAndGap(s: string, i: nat, g: nat)
    requires i == WordEnd(s, 0) < |s| && g == GapEnd(s, i)
    ensures NoSpace(s[..i]) && s[i..g] != [] && AllSpace(s[i..g])
    ensures s[g..] == [] || !IsSpace(s[g..][0])
  {
    if g < |s| {
      assert s[g..][0] == s[g];
    }
  }

  /** A string that does not start with a blank has a non-empty first piece
    * whenever it has more than one. */
  lemma SplitHeadNonEmpty(t: string)
    requires t == [] || !IsSpace(t[0])
    ensures |Split(t)| > 1 ==> Split(t)[0] != []
  {
    if t == [] {
      assert Split(t) == [t];
    } else {
      assert WordEnd(t, 0) > 0;
    }
  }

  /** The end of a run of non-blanks is where the first blank after it is. */
  lemma WordEndIs(s: string, i: nat, n: nat)
    requires i <= n <= |s|
    requires forall m :: i <= m < n ==> !IsSpace(s[m])
    requires n < |s| ==> IsSpace(s[n])
    ensures WordEnd(s, i) == n
  {
  }

  /** The end of a run of blanks is where the first non-blank after it is. */
  lemma GapEndIs(s: string, i: nat, n: nat)
    requires i <= n <= |s|
    requires forall m :: i <= m < n ==> IsSpace(s[m])
    requires n < |s| ==> !IsSpace(s[n])
    ensures GapEnd(s, i) == n
  {
  }

  /** A string made of a blank-free piece, a run of blanks and a rest that
    * starts with a non-blank splits into that piece and the rest's split. */
  lemma SplitOfCons(s: string, a: string, b: string, t: string)
    requires NoSpace(a) && b != [] && AllSpace(b) && (t == [] || !IsSpace(t[0]))
    requires s == a + b + t
    ensures Split(s) == [a] + Split(t) && Gaps(s) == [b] + Gaps(t)
  {
    WordEndIs(s, 0, |a|);
    GapEndIs(s, |a|, |a| + |b|);
    assert s[..|a|] == a && s[|a|..|a| + |b|] == b && s[|a| + |b|..] == t;
  }

  /** The split is the only way to cut a string at its runs of blanks: any
    * `pieces` and `gaps` that make up `s` as `IsSplitBy` says are `Split(s)`
    * and `Gaps(s)`. */
  lemma {:induction false} SplitUnique(s: string, pieces: seq<string>, gaps: seq<string>)
    requires IsSplitBy(s, pieces, gaps)
    ensures pieces == Split(s) && gaps == Gaps(s)
    decreases |gaps|
  {
    var a := pieces[0];
    if gaps == [] {
      WordEndIs(s, 0, |s|);
    } else {
      var b, t := gaps[0], Interleave(pieces[1..], gaps[1..]);
      SplitByTail(s, pieces, gaps);
      SplitUnique(t, pieces[1..], gaps[1..]);
      SplitOfCons(s, a, b, t);
      assert pieces == [a] + pieces[1..] && gaps == [b] + gaps[1..];
    }
  }

  /** What occurs in a suffix of `s` occurs in `s`. */
  lemma OccursInSuffix(s: string, g: nat, pieces: seq<string>)
    requires g <= |s| && forall w :: w in pieces ==> Contains(s[g..], w)
    ensures forall w :: w in pieces ==> Contains(s, w)
  {
    assert s[..g] + s[g..] + [] == s;
    forall w | w in pieces ensures Contains(s, w) {
      ContainsInfix(s[..g], s[g..], [], w);
    }
  }

  /** `s[i..j]` is a maximal run of non-blank characters of `s`. */
  predicate IsWordAt(s: string, i: nat, j: nat) {
    && i < j <= |s|
    && NoSpace(s[i..j])
    && (i == 0 || IsSpace(s[i - 1]))
    && (j == |s| || IsSpace(s[j]))
  }

  /** `w` is a whitespace-delimited word of `s`. */
  ghost predicate IsWordOf(w: string, s: string) {
    exists i: nat, j: nat :: IsWordAt(s, i, j) && s[i..j] == w
  }

  /** A word of a suffix `s[g..]` is a word of `s` when the suffix starts after a blank. */
  lemma WordAtOfSuffix(s: string, g: nat, a: nat, b: nat)
    requires g <= |s| && IsWordAt(s[g..], a, b)
    requires a > 0 || g == 0 || IsSpace(s[g - 1])
    ensures IsWordAt(s, g + a, g + b) && s[g + a..g + b] == s[g..][a..b]
  {
    var t := s[g..];
    assert s[g + a..g + b] == t[a..b];
    assert a > 0 ==> s[g + a - 1] == t[a - 1];
    assert b < |t| ==> s[g + b] == t[b];
  }

  /** A word of `s` that starts at or after `g` is a word of the suffix `s[g..]`. */
  lemma WordAtInSuffix(s: string, g: nat, a: nat, b: nat)
    requires g <= a && IsWordAt(s, a, b)
    ensures IsWordAt(s[g..], a - g, b - g) && s[g..][a - g..b - g] == s[a..b]
  {
    var t := s[g..];
    assert t[a - g..b - g] == s[a..b];
    assert a - g > 0 ==> t[a - g - 1] == s[a - 1];
    assert b - g < |t| ==> t[b - g] == s[b];
  }

  /** A word of a prefix `s[..n]` is a word of `s` when the prefix ends before a blank. */
  lemma WordAtOfPrefix(s: string, n: nat, a: nat, b: nat)
    requires n <= |s| && IsWordAt(s[..n], a, b)
    requires b < n || n == |s| || IsSpace(s[n])
    ensures IsWordAt(s, a, b) && s[a..b] == s[..n][a..b]
  {
    var t := s[..n];
    assert s[a..b] == t[a..b];
    assert a > 0 ==> s[a - 1] == t[a - 1];
    assert b < n ==> s[b] == t[b];
  }

  /** A word of `s` that ends at or before `n` is a word of the prefix `s[..n]`. */
  lemma WordAtInPrefix(s: string, n: nat, a: nat, b: nat)
    requires b <= n <= |s| && IsWordAt(s, a, b)
    ensures IsWordAt(s[..n], a, b) && s[..n][a..b] == s[a..b]
  {
    var t := s[..n];
    assert t[a..b] == s[a..b];
    assert a > 0 ==> t[a - 1] == s[a - 1];
    assert b < n ==> t[b] == s[b];
  }

  lemma NoBlankInWord(s: string, i: nat, j: nat, k: nat)
    requires IsWordAt(s, i, j) && i <= k < j
    ensures !IsSpace(s[k])
  {
    assert s[k] == s[i..j][k - i];
  }

  lemma WordStartsWithNonBlank(s: string, i: nat, j: nat)
    requires IsWordAt(s, i, j)
    ensures !IsSpace(s[i])
  {
    NoBlankInWord(s, i, j, i);
  }

  /** Every non-empty piece of a split is a word of the string. */
  lemma {:induction false} SplitPieceIsWord(s: string, w: string)
    requires w != [] && w in Split(s)
    ensures IsWordOf(w, s)
    decreases |s|
  {
    var i := WordEnd(s, 0);
    if i == |s| {
      assert s[0..|s|] == s;
      assert IsWordAt(s, 0, |s|);
    } else {
      var g := GapEnd(s, i);
      assert Split(s) == [s[..i]] + Split(s[g..]);
      if w == s[..i] {
        assert s[0..i] == s[..i];
        assert IsWordAt(s, 0, i);
      } else {
        SplitPieceIsWord(s[g..], w);
        var a: nat, b: nat :| IsWordAt(s[g..], a, b) && s[g..][a..b] == w;
        WordAtOfSuffix(s, g, a, b);
      }
    }
  }

  /** The word at the start of the string is the first piece of its split. */
  lemma FirstWordIsSplitPiece(s: string, b: nat)
    requires IsWordAt(s, 0, b)
    ensures s[..b] == Split(s)[0]
  {
    var i := WordEnd(s, 0);
    assert b == i by {
      if i < b { NoBlankInWord(s, 0, b, i); }
    }
  }

  /** Past its first word, the split goes on with the split of what follows
    * the first run of blanks. */
  lemma SplitStep(s: string)
    requires WordEnd(s, 0) < |s|
    ensures Split(s) == [s[..WordEnd(s, 0)]] + Split(s[GapEnd(s, WordEnd(s, 0))..])
  {
  }

  /** A word that does not start the string starts past the first run of blanks. */
  lemma LaterWordPastFirstGap(s: string, a: nat, b: nat)
    requires IsWordAt(s, a, b) && a > 0
    ensures WordEnd(s, 0) < |s| && 0 < GapEnd(s, WordEnd(s, 0)) <= a
  {
    var i := WordEnd(s, 0);
    WordStartsWithNonBlank(s, a, b);
    assert i < a by {
      if a <= i { assert false; }
    }
    assert GapEnd(s, i) <= a by {
      if a < GapEnd(s, i) { assert false; }
    }
  }

  /** Every word of the string is a piece of its split. */
  lemma {:induction false} WordIsSplitPiece(s: string, a: nat, b: nat)
    requires IsWordAt(s, a, b)
    ensures s[a..b] in Split(s)
    decreases |s|
  {
    if a == 0 {
      FirstWordIsSplitPiece(s, b);
      assert s[a..b] == s[..b];
    } else {
      LaterWordPastFirstGap(s, a, b);
      var g := GapEnd(s, WordEnd(s, 0));
      WordAtInSuffix(s, g, a, b);
      WordIsSplitPiece(s[g..], a - g, b - g);
      SplitStep(s);
      var rest := Split(s[g..]);
      assert s[a..b] in rest;
      assert Split(s)[1..] == rest;
    }
  }

  /** The non-empty pieces of a split are exactly the words of the string. */
  lemma SplitWords(s: string, w: string)
    requires w != []
    ensures w in Split(s) <==> IsWordOf(w, s)
  {
    if w in Split(s) {
      SplitPieceIsWord(s, w);
    }
    if IsWordOf(w, s) {
      var a: nat, b: nat :| IsWordAt(s, a, b) && s[a..b] == w;
      WordIsSplitPiece(s, a, b);
    }
  }

  /** The split has an empty piece exactly when the string is empty or starts
    * or ends with a blank. */
  lemma {:induction false} SplitEmptyPiece(s: string)
    ensures [] in Split(s) <==> s == [] || IsSpace(s[0]) || IsSpace(s[|s| - 1])
    decreases |s|
  {
    var i := WordEnd(s, 0);
    if i < |s| {
      var g := GapEnd(s, i);
      var t := s[g..];
      assert Split(s) == [s[..i]] + Split(t);
      SplitEmptyPiece(t);
      assert t != [] ==> t[0] == s[g] && t[|t| - 1] == s[|s| - 1];
      assert g == |s| ==> IsSpace(s[|s| - 1]);
    }
  }

  /** A word of `a + [c] + b`, for a blank `c`, lies wholly in `a` or wholly in `b`. */
  lemma WordOfJoinIsWordOfPart(a: string, c: char, b: string, x: nat, y: nat)
    requires IsSpace(c) && IsWordAt(a + [c] + b, x, y)
    ensures IsWordOf((a + [c] + b)[x..y], a) || IsWordOf((a + [c] + b)[x..y], b)
  {
    var s := a + [c] + b;
    var n := |a|;
    assert s[..n] == a && s[n + 1..] == b;
    if y <= n {
      WordAtInPrefix(s, n, x, y);
    } else {
      assert x > n by {
        if x <= n { NoBlankInWord(s, x, y, n); }
      }
      WordAtInSuffix(s, n + 1, x, y);
    }
  }

  /** A word of `a` stays a word of `a + [c] + b` for a blank `c`. */
  lemma WordOfLeftPart(a: string, c: char, b: string, x: nat, y: nat)
    requires IsSpace(c) && IsWordAt(a, x, y)
    ensures IsWordOf(a[x..y], a + [c] + b)
  {
    var s := a + [c] + b;
    assert s[..|a|] == a;
    WordAtOfPrefix(s, |a|, x, y);
  }

  /** A word of `b` stays a word of `a + [c] + b` for a blank `c`. */
  lemma WordOfRightPart(a: string, c: char, b: string, x: nat, y: nat)
    requires IsSpace(c) && IsWordAt(b, x, y)
    ensures IsWordOf(b[x..y], a + [c] + b)
  {
    var s := a + [c] + b;
    assert s[|a| + 1..] == b;
    WordAtOfSuffix(s, |a| + 1, x, y);
  }

  /** The words of `a + [c] + b`, for a blank `c`, are those of `a` and those of `b`. */
  lemma WordsOfJoin(a: string, c: char, b: string, w: string)
    requires IsSpace(c)
    ensures IsWordOf(w, a + [c] + b) <==> IsWordOf(w, a) || IsWordOf(w, b)
  {
    var s := a + [c] + b;
    if IsWordOf(w, s) {
      var x: nat, y: nat :| IsWordAt(s, x, y) && s[x..y] == w;
      WordOfJoinIsWordOfPart(a, c, b, x, y);
    }
    if IsWordOf(w, a) {
      var x: nat, y: nat :| IsWordAt(a, x, y) && a[x..y] == w;
      WordOfLeftPart(a, c, b, x, y);
    }
    if IsWordOf(w, b) {
      var x: nat, y: nat :| IsWordAt(b, x, y) && b[x..y] == w;
      WordOfRightPart(a, c, b, x, y);
    }
  }

  /** A string of blanks has no words. */
  lemma BlankHasNoWords(s: string, w: string)
    requires AllSpace(s)
    ensures !IsWordOf(w, s)
  {
    if IsWordOf(w, s) {
      var i: nat, j: nat :| IsWordAt(s, i, j) && s[i..j] == w;
      WordStartsWithNonBlank(s, i, j);
      assert false;
    }
  }

  // ---------------------------------------------------------------------------
  // includes

  /** `s.includes(t)`: `t` occurs in `s` at some position. A prefix (the
    * empty string included) always occurs, and an occurrence is no longer
    * than `s` and is made of characters of `s`. */
  function Contains(s: string, t: string): (r: bool)
    ensures t <= s ==> r
    ensures r ==> |t| <= |s| && forall j :: 0 <= j < |t| ==> t[j] in s
  {
    assert t <= s ==> t <= s[0..] by { assert s[0..] == s; }
    assert (exists i :: 0 <= i <= |s| && t <= s[i..]) ==> forall j :: 0 <= j < |t| ==> t[j] in s by {
      if exists i :: 0 <= i <= |s| && t <= s[i..] {
        var i :| 0 <= i <= |s| && t <= s[i..];
        forall j | 0 <= j < |t| ensures t[j] in s {
          assert t[j] == s[i..][j];
        }
      }
    }
    exists i :: 0 <= i <= |s| && t <= s[i..]
  }

  /** An occurrence in `m` is an occurrence in any string around `m`. */
  lemma ContainsInfix(a: string, m: string, b: string, t: string)
    requires Contains(m, t)
    ensures Contains(a + m + b, t)
  {
    var s := a + m + b;
    var i :| 0 <= i <= |m| && t <= m[i..];
    assert t <= s[|a| + i..] by {
      forall k | 0 <= k < |t| ensures t[k] == s[|a| + i..][k] {
        assert t[k] == m[i..][k];
      }
    }
  }

  /** Lower-casing keeps an occurrence. */
  lemma ContainsToLower(s: string, t: string)
    requires Contains(s, t)
    ensures Contains(ToLower(s), ToLower(t))
  {
    var i :| 0 <= i <= |s| && t <= s[i..];
    assert t == s[i..i + |t|];
    ToLowerSlice(s, i, i + |t|);
    assert ToLower(t) <= ToLower(s)[i..];
  }

  lemma ToLowerSlice(s: string, i: nat, j: nat)
    requires i <= j <= |s|
    ensures ToLower(s[i..j]) == ToLower(s)[i..j]
  {
    var a, b := ToLower(s[i..j]), ToLower(s)[i..j];
    forall k | 0 <= k < j - i ensures a[k] == b[k] {
      assert a[k] == LowerChar(s[i..j][k]);
    }
  }

  lemma CharOfOccurrence(s: string, t: string, i: nat, j: nat)
    requires i <= |s| && t <= s[i..] && j < |t|
    ensures i + j < |s| && s[i + j] == t[j]
  {
    assert t[j] == s[i..][j];
  }

  /** An occurrence that lies between `lo` and `hi` is an occurrence in that slice. */
  lemma OccurrenceInSlice(s: string, t: string, i: nat, lo: nat, hi: nat)
    requires lo <= i && i + |t| <= hi <= |s| && t <= s[i..]
    ensures t <= s[lo..hi][i - lo..]
  {
    assert s[lo..hi][i - lo..][..|t|] == s[i..i + |t|];
  }

  /** An occurrence of a non-empty, blank-free `t` in `a + w + b`, for a
    * non-empty run of blanks `w`, lies wholly in `a` or wholly in `b`. */
  lemma OccurrenceBesideBlanks(a: string, w: string, b: string, t: string)
    requires t != [] && NoSpace(t)
    requires w != [] && AllSpace(w)
    requires Contains(a + w + b, t)
    ensures Contains(a, t) || Contains(b, t)
  {
    var s := a + w + b;
    var n, m := |a|, |w|;
    var i :| 0 <= i <= |s| && t <= s[i..];
    if i + |t| <= n {
      OccurrenceInSlice(s, t, i, 0, n);
      assert s[0..n] == a;
      assert 0 <= i <= |a| && t <= a[i..];
      assert Contains(a, t);
    } else if i >= n + m {
      OccurrenceInSlice(s, t, i, n + m, |s|);
      assert s[n + m..|s|] == b;
      assert 0 <= i - n - m <= |b| && t <= b[i - n - m..];
      assert Contains(b, t);
    } else {
      var k := if i < n then n else i;
      CharOfOccurrence(s, t, i, k - i);
      assert false;
    }
  }

  /** A non-empty, blank-free `t` never occurs across a non-empty run of blanks:
    * it occurs in `a + w + b` exactly when it occurs in `a` or in `b`. */
  lemma ContainsAcrossBlanks(a: string, w: string, b: string, t: string)
    requires t != [] && NoSpace(t)
    requires w != [] && AllSpace(w)
    ensures Contains(a + w + b, t) <==> Contains(a, t) || Contains(b, t)
  {
    if Contains(a + w + b, t) {
      OccurrenceBesideBlanks(a, w, b, t);
    }
    if Contains(a, t) {
      ContainsInfix([], a, w + b, t);
      assert [] + a + (w + b) == a + w + b;
    }
    if Contains(b, t) {
      ContainsInfix(a + w, b, [], t);
      assert a + w + b + [] == a + w + b;
    }
  }
}
