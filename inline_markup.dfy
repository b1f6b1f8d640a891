/**
 * `createMarkup` of the Markdown preview (components/MarkdownPreview.tsx): a line payload
 * goes through five global `replace` calls in order, two single-character escapes and
 * three non-greedy delimiter substitutions:
 *   `<` to `&lt;`, `>` to `&gt;`, `**x**` to `<strong>x</strong>`, `*x*` to `<em>x</em>`,
 *   and a backquoted `x` to `<code>x</code>`.
 * Each regular-expression pass is modelled as a left-to-right scan of the string.
 */
module InlineMarkup {
  import opened Types
  import opened JsString

  // ---------------------------------------------------------------------------
  // The two escape passes

  /** `s.replace(/c/g, rep)` for a one-character pattern: each `c` becomes `rep`, left to right. */
  function ReplaceAll(s: string, c: char, rep: string): (r: string)
    ensures c !in s ==> r == s
    decreases |s|
  {
    if s == [] then [] else (if s[0] == c then rep else [s[0]]) + ReplaceAll(s[1..], c, rep)
  }

  /** Every character of the result is a kept character of `s` other than `c`, or one of `rep`. */
  lemma {:induction false} ReplaceAllCharacters(s: string, c: char, rep: string)
    ensures forall x :: x in ReplaceAll(s, c, rep) ==> (x in s && x != c) || x in rep
    decreases |s|
  {
    if s != [] {
      ReplaceAllCharacters(s[1..], c, rep);
      assert forall x :: x in s[1..] ==> x in s;
    }
  }

  /** The two escape passes, `<` first and `>` second. No angle bracket survives them. */
  function Escape(s: string): (r: string)
    ensures forall x :: x in r ==> (x in s && x != '<' && x != '>') || x in "&;glt"
    ensures '<' !in r && '>' !in r
  {
    var t := ReplaceAll(s, '<', "&lt;");
    ReplaceAllCharacters(s, '<', "&lt;");
    ReplaceAllCharacters(t, '>', "&gt;");
    ReplaceAll(t, '>', "&gt;")
  }

  /** The escape of one character, as a single simultaneous substitution would write it. */
  function EscapeChar(c: char): string {
    if c == '<' then "&lt;" else if c == '>' then "&gt;" else [c]
  }

  /** Reference definition: every character escaped on its own. */
  function EscapeEach(s: string): string
    decreases |s|
  {
    if s == [] then [] else EscapeChar(s[0]) + EscapeEach(s[1..])
  }

  lemma {:induction false} ReplaceAllConcat(a: string, b: string, c: char, rep: string)
    ensures ReplaceAll(a + b, c, rep) == ReplaceAll(a, c, rep) + ReplaceAll(b, c, rep)
    decreases |a|
  {
    if a != [] {
      var head := if a[0] == c then rep else [a[0]];
      ReplaceAllConcat(a[1..], b, c, rep);
      var ra, rb := ReplaceAll(a[1..], c, rep), ReplaceAll(b, c, rep);
      assert (a + b)[0] == a[0] && (a + b)[1..] == a[1..] + b;
      assert ReplaceAll(a + b, c, rep) == head + (ra + rb);
      assert ReplaceAll(a, c, rep) == head + ra;
      AppendAssociates(head, ra, rb);
    } else {
      assert a + b == b;
    }
  }

  /**
   * The two sequential passes equal one simultaneous substitution: each `<` becomes `&lt;`,
   * each `>` becomes `&gt;` and every other character is kept (the `&lt;` inserted by the
   * first pass holds no `>` for the second pass to rewrite).
   */
  lemma {:induction false} EscapeIsPerCharacter(s: string)
    ensures Escape(s) == EscapeEach(s)
    decreases |s|
  {
    if s != [] {
      EscapeIsPerCharacter(s[1..]);
      var head := if s[0] == '<' then "&lt;" else [s[0]];
      var lt := ReplaceAll(s[1..], '<', "&lt;");
      assert ReplaceAll(s, '<', "&lt;") == head + lt;
      ReplaceAllConcat(head, lt, '>', "&gt;");
      assert ReplaceAll(head, '>', "&gt;") == EscapeChar(s[0]);
    }
  }

  // ---------------------------------------------------------------------------
  // The three delimiter passes

  /** The characters the delimiters are made of: `*` and the backquote. */
  predicate IsDelimiterChar(c: char) {
    c == '*' || c == '`'
  }

  predicate NoDelimiterChar(s: string) {
    forall k :: 0 <= k < |s| ==> !IsDelimiterChar(s[k])
  }

  /** A delimiter of a substitution pass: `**`, `*` or a backquote. */
  predicate IsDelimiter(d: string) {
    d != [] && forall k :: 0 <= k < |d| ==> IsDelimiterChar(d[k])
  }

  /** The element names the passes insert. */
  const TagNames: seq<string> := ["strong", "em", "code"]

  function OpenTag(tag: string): string {
    "<" + tag + ">"
  }

  function CloseTag(tag: string): string {
    "</" + tag + ">"
  }

  /** `d` occurs in `s` at index `i`. */
  predicate OccursAt(s: string, d: string, i: int) {
    0 <= i && i + |d| <= |s| && s[i..i + |d|] == d
  }

  /**
   * `(.*?)d` may end at `j` for a capture that starts at `k`: `d` occurs at `j`, and the
   * regex `.` accepted every character from `k` up to `j` (none is a line terminator).
   */
  predicate ClosesAt(s: string, d: string, k: int, j: int) {
    0 <= k <= j && OccursAt(s, d, j) && forall i :: k <= i < j ==> !IsLineTerminator(s[i])
  }

  /**
   * The lazy `(.*?)` followed by the closing delimiter: the capture starting at `k` ends at
   * the NEAREST position where the closing delimiter can match, and there is no match when
   * a line terminator comes first or no closing delimiter follows. An empty capture is allowed.
   */
  function FindClose(s: string, d: string, k: nat): (r: Option<nat>)
    requires k <= |s|
    ensures r.Some? ==> k <= r.value && OccursAt(s, d, r.value)
    decreases |s| - k
  {
    if OccursAt(s, d, k) then Some(k)
    else if k == |s| || IsLineTerminator(s[k]) then None
    else FindClose(s, d, k + 1)
  }

  /** The match `FindClose` reports is the nearest legal one, and `None` means there is none. */
  lemma {:induction false} FindCloseIsNearest(s: string, d: string, k: nat)
    requires k <= |s|
    ensures FindClose(s, d, k).Some? ==> ClosesAt(s, d, k, FindClose(s, d, k).value)
    ensures FindClose(s, d, k).Some? ==> forall i :: k <= i < FindClose(s, d, k).value ==> !ClosesAt(s, d, k, i)
    ensures FindClose(s, d, k).None? ==> forall i :: k <= i <= |s| ==> !ClosesAt(s, d, k, i)
    decreases |s| - k
  {
    if !OccursAt(s, d, k) && k < |s| && !IsLineTerminator(s[k]) {
      FindCloseIsNearest(s, d, k + 1);
      assert forall i :: ClosesAt(s, d, k, i) && k < i ==> ClosesAt(s, d, k + 1, i);
      assert forall i :: ClosesAt(s, d, k + 1, i) ==> ClosesAt(s, d, k, i);
      assert !ClosesAt(s, d, k, k);
    }
  }

  /**
   * `s.replace(/d(.*?)d/g, "<tag>$1</tag>")`: scanning left to right, a delimiter that has a
   * closing partner is replaced together with it by the tag pair around the text between
   * them, and the scan resumes after the closing delimiter; any other character is copied
   * and the scan moves on by one.
   */
  function ReplaceDelimited(s: string, d: string, tag: string): string
    requires d != []
    decreases |s|
  {
    if s == [] then []
    else if OccursAt(s, d, 0) then
      match FindClose(s, d, |d|)
      case Some(j) => OpenTag(tag) + s[|d|..j] + CloseTag(tag) + ReplaceDelimited(s[j + |d|..], d, tag)
      case None => [s[0]] + ReplaceDelimited(s[1..], d, tag)
    else
      [s[0]] + ReplaceDelimited(s[1..], d, tag)
  }

  /** A delimiter with a closing partner: the pass wraps the text between them in the tag pair. */
  lemma PassAtPair(s: string, d: string, tag: string)
    requires d != [] && OccursAt(s, d, 0) && FindClose(s, d, |d|).Some?
    ensures var j := FindClose(s, d, |d|).value;
            ReplaceDelimited(s, d, tag) == OpenTag(tag) + s[|d|..j] + CloseTag(tag) + ReplaceDelimited(s[j + |d|..], d, tag)
  {
  }

  /** Any other first character is copied and the scan moves on by one. */
  lemma PassAtChar(s: string, d: string, tag: string)
    requires d != [] && s != [] && !(OccursAt(s, d, 0) && FindClose(s, d, |d|).Some?)
    ensures ReplaceDelimited(s, d, tag) == [s[0]] + ReplaceDelimited(s[1..], d, tag)
  {
  }

  /** Some legal close exists for a capture starting at `k`. */
  ghost predicate CanClose(s: string, d: string, k: int) {
    exists q :: ClosesAt(s, d, k, q)
  }

  /** No legal close for a capture starting at `k` lies before `j`. */
  predicate NoCloseBefore(s: string, d: string, k: int, j: int) {
    forall q :: k <= q < j ==> !ClosesAt(s, d, k, q)
  }

  /** An occurrence of `d` at `i` that has a legal closing partner: the regex can match there. */
  ghost predicate Opens(s: string, d: string, i: int) {
    OccursAt(s, d, i) && CanClose(s, d, i + |d|)
  }

  /**
   * The pairing the pass performs: the leftmost delimiter that can open a match is paired
   * with its nearest legal closing delimiter, everything before it is copied, and the pass
   * resumes after the closing delimiter.
   */
  lemma LeftmostMatch(s: string, d: string, tag: string, i: nat, j: nat)
    requires d != [] && OccursAt(s, d, i) && ClosesAt(s, d, i + |d|, j)
    requires forall p :: 0 <= p < i ==> !Opens(s, d, p)
    requires NoCloseBefore(s, d, i + |d|, j)
    ensures ReplaceDelimited(s, d, tag)
            == s[..i] + OpenTag(tag) + s[i + |d|..j] + CloseTag(tag) + ReplaceDelimited(s[j + |d|..], d, tag)
  {
    MatchFrom(s, d, tag, 0, i, j);
    assert s[0..] == s && s[0..i] == s[..i];
  }

  /** `LeftmostMatch` for the pass started at any `a` up to the match. */
  lemma {:induction false} MatchFrom(s: string, d: string, tag: string, a: nat, i: nat, j: nat)
    requires d != [] && a <= i && OccursAt(s, d, i) && ClosesAt(s, d, i + |d|, j)
    requires forall p :: 0 <= p < i ==> !Opens(s, d, p)
    requires NoCloseBefore(s, d, i + |d|, j)
    ensures ReplaceDelimited(s[a..], d, tag)
            == s[a..i] + OpenTag(tag) + s[i + |d|..j] + CloseTag(tag) + ReplaceDelimited(s[j + |d|..], d, tag)
    decreases i - a
  {
    if a == i {
      MatchAtStart(s, d, tag, i, j);
      assert s[i..i] + OpenTag(tag) == OpenTag(tag) by {
        assert s[i..i] == [];
      }
    } else {
      assert ReplaceDelimited(s[a..], d, tag) == [s[a]] + ReplaceDelimited(s[a + 1..], d, tag) by {
        CopiedAt(s, d, tag, a);
      }
      MatchFrom(s, d, tag, a + 1, i, j);
      ConsPiece(s, a, i, OpenTag(tag), s[i + |d|..j], CloseTag(tag), ReplaceDelimited(s[j + |d|..], d, tag));
    }
  }

  /** At a match's opening delimiter, the pass pairs it with the nearest legal close. */
  lemma MatchAtStart(s: string, d: string, tag: string, i: nat, j: nat)
    requires d != [] && OccursAt(s, d, i) && ClosesAt(s, d, i + |d|, j) && NoCloseBefore(s, d, i + |d|, j)
    ensures ReplaceDelimited(s[i..], d, tag)
            == OpenTag(tag) + s[i + |d|..j] + CloseTag(tag) + ReplaceDelimited(s[j + |d|..], d, tag)
  {
    assert OccursAt(s[i..], d, 0) by {
      OccursIn(s, d, i, 0);
    }
    assert FindClose(s[i..], d, |d|) == Some(j - i) by {
      ClosesIn(s, d, i, |d|, j - i);
      NoCloseBeforeIn(s, d, i, |d|, j - i);
      NearestIsFound(s[i..], d, j - i);
    }
    PairInSuffix(s, d, tag, i, j);
  }

  /** `PairClosedAt` on the suffix `s[i..]`, with its pieces read as slices of `s`. */
  lemma PairInSuffix(s: string, d: string, tag: string, i: nat, j: nat)
    requires d != [] && i + |d| <= j && j + |d| <= |s|
    requires OccursAt(s[i..], d, 0) && FindClose(s[i..], d, |d|) == Some(j - i)
    ensures ReplaceDelimited(s[i..], d, tag)
            == OpenTag(tag) + s[i + |d|..j] + CloseTag(tag) + ReplaceDelimited(s[j + |d|..], d, tag)
  {
    PairClosedAt(s[i..], d, tag, j - i);
    SuffixPieces(s, d, tag, i, j);
  }

  /** The slices of `s[i..]` that `PairClosedAt` names, as slices of `s`. */
  lemma SuffixPieces(s: string, d: string, tag: string, i: nat, j: nat)
    requires d != [] && i + |d| <= j && j + |d| <= |s|
    ensures s[i..][|d|..j - i] == s[i + |d|..j]
    ensures ReplaceDelimited(s[i..][j - i + |d|..], d, tag) == ReplaceDelimited(s[j + |d|..], d, tag)
  {
    assert s[i..][j - i + |d|..] == s[j + |d|..];
  }

  /** `PassAtPair` with the closing position named. */
  lemma PairClosedAt(s: string, d: string, tag: string, j: nat)
    requires d != [] && OccursAt(s, d, 0) && FindClose(s, d, |d|) == Some(j)
    ensures ReplaceDelimited(s, d, tag) == OpenTag(tag) + s[|d|..j] + CloseTag(tag) + ReplaceDelimited(s[j + |d|..], d, tag)
  {
    PassAtPair(s, d, tag);
  }

  /** A position that does not open a match is copied. */
  lemma CopiedAt(s: string, d: string, tag: string, a: nat)
    requires d != [] && a < |s| && !Opens(s, d, a)
    ensures ReplaceDelimited(s[a..], d, tag) == [s[a]] + ReplaceDelimited(s[a + 1..], d, tag)
  {
    OpensIn(s, d, a, 0);
    FirstNotOpening(s[a..], d, tag);
    assert s[a..][1..] == s[a + 1..];
  }

  /** Putting the copied character `s[a]` back in front of the pieces. */
  lemma ConsPiece(s: string, a: nat, i: nat, open: string, mid: string, close: string, z: string)
    requires a < i <= |s|
    ensures [s[a]] + (s[a + 1..i] + open + mid + close + z) == s[a..i] + open + mid + close + z
  {
    assert [s[a]] + s[a + 1..i] == s[a..i];
    AppendAssociates(s[a + 1..i] + open + mid, close, z);
    AppendAssociates(s[a + 1..i] + open, mid, close + z);
    AppendAssociates(s[a + 1..i], open, mid + (close + z));
    AppendAssociates([s[a]], s[a + 1..i], open + (mid + (close + z)));
    AppendAssociates(s[a..i] + open + mid, close, z);
    AppendAssociates(s[a..i] + open, mid, close + z);
    AppendAssociates(s[a..i], open, mid + (close + z));
  }

  /** When nothing can open a match, the pass copies its input. */
  lemma {:induction false} NoMatch(s: string, d: string, tag: string)
    requires d != [] && forall p :: !Opens(s, d, p)
    ensures ReplaceDelimited(s, d, tag) == s
  {
    NoMatchFrom(s, d, tag, 0);
    assert s[0..] == s;
  }

  lemma {:induction false} NoMatchFrom(s: string, d: string, tag: string, a: nat)
    requires d != [] && a <= |s| && forall p :: !Opens(s, d, p)
    ensures ReplaceDelimited(s[a..], d, tag) == s[a..]
    decreases |s| - a
  {
    if a < |s| {
      CopiedAt(s, d, tag, a);
      NoMatchFrom(s, d, tag, a + 1);
      assert [s[a]] + s[a + 1..] == s[a..];
    }
  }

  /** A delimiter with a closing partner at `j` and none nearer is closed by `FindClose` at `j`. */
  lemma NearestIsFound(s: string, d: string, j: nat)
    requires |d| <= |s| && ClosesAt(s, d, |d|, j) && NoCloseBefore(s, d, |d|, j)
    ensures FindClose(s, d, |d|) == Some(j)
  {
    CloseIsFound(s, d, j);
    var v := FindClose(s, d, |d|).value;
    assert ClosesAt(s, d, |d|, v) by {
      FindCloseIsNearest(s, d, |d|);
    }
    assert |d| <= v < j ==> !ClosesAt(s, d, |d|, v);
    assert v == j;
  }

  /** A legal close at `j` is found, at `j` or nearer. */
  lemma CloseIsFound(s: string, d: string, j: nat)
    requires |d| <= |s| && ClosesAt(s, d, |d|, j)
    ensures FindClose(s, d, |d|).Some? && FindClose(s, d, |d|).value <= j
  {
    FindCloseIsNearest(s, d, |d|);
  }

  /** A first character that does not open a match is copied. */
  lemma FirstNotOpening(s: string, d: string, tag: string)
    requires d != [] && s != [] && !Opens(s, d, 0)
    ensures ReplaceDelimited(s, d, tag) == [s[0]] + ReplaceDelimited(s[1..], d, tag)
  {
    if OccursAt(s, d, 0) {
      FindCloseIsNearest(s, d, |d|);
    }
    PassAtChar(s, d, tag);
  }

  /** Occurrences in a suffix are the occurrences in the whole text, shifted by the cut. */
  lemma OccursIn(s: string, d: string, a: nat, p: int)
    requires a <= |s| && 0 <= p
    ensures OccursAt(s[a..], d, p) <==> OccursAt(s, d, a + p)
  {
    if p + |d| <= |s| - a {
      assert s[a..][p..p + |d|] == s[a + p..a + p + |d|];
    }
  }

  /** Legal closes in a suffix are those of the whole text, shifted by the cut. */
  lemma ClosesIn(s: string, d: string, a: nat, k: int, q: int)
    requires a <= |s| && 0 <= k
    ensures ClosesAt(s[a..], d, k, q) <==> ClosesAt(s, d, a + k, a + q)
  {
    if 0 <= q {
      OccursIn(s, d, a, q);
    }
    if k <= q && q + |d| <= |s| - a {
      forall m | k <= m < q
        ensures s[a..][m] == s[a + m]
      {
      }
      forall m | a + k <= m < a + q
        ensures s[m] == s[a..][m - a]
      {
      }
    }
  }

  /** An opening position of a suffix is one of the whole text. */
  lemma OpensIn(s: string, d: string, a: nat, p: int)
    requires a <= |s| && 0 <= p
    ensures Opens(s[a..], d, p) ==> Opens(s, d, a + p)
  {
    if Opens(s[a..], d, p) {
      var q :| ClosesAt(s[a..], d, p + |d|, q);
      OccursIn(s, d, a, p);
      ClosesIn(s, d, a, p + |d|, q);
    }
  }

  /** No nearer close in the whole text means no nearer close in the suffix. */
  lemma NoCloseBeforeIn(s: string, d: string, a: nat, k: nat, j: int)
    requires a <= |s| && NoCloseBefore(s, d, a + k, a + j)
    ensures NoCloseBefore(s[a..], d, k, j)
  {
    forall q | k <= q < j
      ensures !ClosesAt(s[a..], d, k, q)
    {
      ClosesIn(s, d, a, k, q);
    }
  }

  /** Every character of a pass's output comes from its input or from one of the two tags. */
  lemma {:induction false} PassCharacters(s: string, d: string, tag: string)
    requires d != []
    ensures forall x :: x in ReplaceDelimited(s, d, tag) ==> x in s || x in OpenTag(tag) || x in CloseTag(tag)
    decreases |s|
  {
    if s == [] {
    } else if OccursAt(s, d, 0) && FindClose(s, d, |d|).Some? {
      var j := FindClose(s, d, |d|).value;
      PassCharacters(s[j + |d|..], d, tag);
      assert forall x :: x in s[|d|..j] ==> x in s;
      assert forall x :: x in s[j + |d|..] ==> x in s;
    } else {
      PassCharacters(s[1..], d, tag);
      assert forall x :: x in s[1..] ==> x in s;
    }
  }

  /** `createMarkup(text).__html`. */
  function CreateMarkup(text: string): string {
    var escaped := Escape(text);
    var bold := ReplaceDelimited(escaped, "**", "strong");
    var italic := ReplaceDelimited(bold, "*", "em");
    ReplaceDelimited(italic, "`", "code")
  }

  // ---------------------------------------------------------------------------
  // Copying: text without the delimiter's first character passes through unchanged

  lemma {:induction false} CopyPrefix(s: string, d: string, tag: string, n: nat)
    requires d != [] && n <= |s|
    requires forall p :: 0 <= p < n ==> s[p] != d[0]
    ensures ReplaceDelimited(s, d, tag) == s[..n] + ReplaceDelimited(s[n..], d, tag)
    decreases n
  {
    if n > 0 {
      assert !OccursAt(s, d, 0) by { assert s[0] != d[0]; }
      PassAtChar(s, d, tag);
      forall p | 0 <= p < n - 1
        ensures s[1..][p] != d[0]
      {
        assert s[1..][p] == s[p + 1];
      }
      CopyPrefix(s[1..], d, tag, n - 1);
      SlicesAfterFirst(s, n);
      AppendAssociates([s[0]], s[1..][..n - 1], ReplaceDelimited(s[n..], d, tag));
    } else {
      assert s[..0] == [] && s[0..] == s;
    }
  }

  lemma SlicesAfterFirst(s: string, n: nat)
    requires 0 < n <= |s|
    ensures s[..n] == [s[0]] + s[1..][..n - 1]
    ensures s[n..] == s[1..][n - 1..]
  {
  }

  /** A pass whose delimiter does not start anywhere in `s` leaves `s` as it is. */
  lemma ReplaceDelimitedWithoutDelimiter(s: string, d: string, tag: string)
    requires d != [] && d[0] !in s
    ensures ReplaceDelimited(s, d, tag) == s
  {
    CopyPrefix(s, d, tag, |s|);
    assert s[..|s|] == s;
  }

  /** A payload with no `*` and no backquote is only escaped. */
  lemma PlainTextIsOnlyEscaped(text: string)
    requires '*' !in text && '`' !in text
    ensures CreateMarkup(text) == EscapeEach(text)
  {
    EscapeAddsNoMarkers(text);
    MarkerFreeIsUnchanged(Escape(text));
    EscapeIsPerCharacter(text);
  }

  lemma EscapeAddsNoMarkers(text: string)
    requires '*' !in text && '`' !in text
    ensures '*' !in Escape(text) && '`' !in Escape(text)
  {
    assert '*' !in "&;glt" && '`' !in "&;glt";
  }

  /** Text with no `*` and no backquote goes through the three passes unchanged. */
  lemma MarkerFreeIsUnchanged(escaped: string)
    requires '*' !in escaped && '`' !in escaped
    ensures ReplaceDelimited(ReplaceDelimited(ReplaceDelimited(escaped, "**", "strong"), "*", "em"), "`", "code") == escaped
  {
    ReplaceDelimitedWithoutDelimiter(escaped, "**", "strong");
    ReplaceDelimitedWithoutDelimiter(escaped, "*", "em");
    ReplaceDelimitedWithoutDelimiter(escaped, "`", "code");
  }

  // ---------------------------------------------------------------------------
  // Angle brackets in the markup come only from the inserted tags

  /** The six tags the delimiter passes can insert. */
  predicate IsInsertedTag(t: string) {
    || t == "<strong>" || t == "</strong>"
    || t == "<em>" || t == "</em>"
    || t == "<code>" || t == "</code>"
  }

  /** Length of the inserted tag `s` starts with, or 0 when it starts with none. */
  function TagAt(s: string): (n: nat)
    ensures n <= |s|
    ensures n > 0 ==> IsInsertedTag(s[..n])
  {
    if "<strong>" <= s then 8
    else if "</strong>" <= s then 9
    else if "<em>" <= s then 4
    else if "</em>" <= s then 5
    else if "<code>" <= s then 6
    else if "</code>" <= s then 7
    else 0
  }

  /**
   * Every `<` in `s` opens one of the inserted tags, read whole, and every `>` closes one:
   * the string splits into inserted tags and characters other than `<` and `>`.
   */
  predicate TagSafe(s: string)
    decreases |s|
  {
    if s == [] then true
    else if s[0] == '>' then false
    else if s[0] == '<' then TagAt(s) > 0 && TagSafe(s[TagAt(s)..])
    else TagSafe(s[1..])
  }

  lemma InsertedTagFacts(t: string)
    requires IsInsertedTag(t)
    ensures |t| >= 2 && t[0] == '<' && t[|t| - 1] == '>'
    ensures forall k :: 0 <= k < |t| - 1 ==> t[k] != '>'
    ensures NoDelimiterChar(t)
  {
  }

  /** An inserted tag followed by anything is read as that tag. */
  lemma TagAtInserted(t: string, y: string)
    requires IsInsertedTag(t)
    ensures TagAt(t + y) == |t|
  {
    var s := t + y;
    assert s[..|t|] == t;
    assert s[1] == t[1] && (|t| > 2 ==> s[2] == t[2]);
  }

  lemma InsertedTagIsTagSafe(t: string)
    requires IsInsertedTag(t)
    ensures TagSafe(t)
  {
    TagAtInserted(t, []);
    assert t + [] == t;
    assert t[|t|..] == [];
  }

  lemma {:induction false} TagSafeConcat(a: string, b: string)
    requires TagSafe(a) && TagSafe(b)
    ensures TagSafe(a + b)
    decreases |a|, 1
  {
    if a == [] {
      assert a + b == b;
    } else if a[0] == '<' {
      TagSafeConcatAfterTag(a, b);
    } else {
      TagSafeConcatAfterChar(a, b);
    }
  }

  lemma {:induction false} TagSafeConcatAfterTag(a: string, b: string)
    requires TagSafe(a) && TagSafe(b) && a != [] && a[0] == '<'
    ensures TagSafe(a + b)
    decreases |a|, 0
  {
    var n := TagAt(a);
    var ab := a + b;
    assert ab == a[..n] + (a[n..] + b);
    TagAtInserted(a[..n], a[n..] + b);
    assert ab[n..] == a[n..] + b;
    TagSafeConcat(a[n..], b);
    TagSafeFromTag(ab);
  }

  lemma {:induction false} TagSafeConcatAfterChar(a: string, b: string)
    requires TagSafe(a) && TagSafe(b) && a != [] && a[0] != '<'
    ensures TagSafe(a + b)
    decreases |a|, 0
  {
    TagSafeTail(a);
    TagSafeConcat(a[1..], b);
    assert a + b == [a[0]] + (a[1..] + b);
    TagSafeCons(a[0], a[1..] + b);
  }

  /** Text without angle brackets is tag-safe. */
  lemma {:induction false} PlainIsTagSafe(s: string)
    requires '<' !in s && '>' !in s
    ensures TagSafe(s)
    decreases |s|
  {
    if s != [] {
      assert forall x :: x in s[1..] ==> x in s;
      PlainIsTagSafe(s[1..]);
    }
  }

  /** Where a tag-safe string may be cut without splitting a tag: next to a delimiter character. */
  predicate CutPoint(s: string, k: int) {
    0 <= k <= |s| && (k == 0 || k == |s| || IsDelimiterChar(s[k - 1]) || IsDelimiterChar(s[k]))
  }

  /** A cut next to a delimiter character never falls inside the inserted tag `s` starts with. */
  lemma CutPointAfterTag(s: string, k: nat)
    requires TagSafe(s) && s != [] && s[0] == '<' && CutPoint(s, k) && 0 < k
    ensures TagAt(s) <= k
  {
    var n := TagAt(s);
    var t := s[..n];
    InsertedTagFacts(t);
    forall p | 0 <= p < n
      ensures !IsDelimiterChar(s[p])
    {
      assert s[p] == t[p];
    }
  }

  /** A string starting with an inserted tag is tag-safe when what follows the tag is. */
  lemma TagSafeFromTag(s: string)
    requires s != [] && s[0] == '<' && TagAt(s) > 0 && TagSafe(s[TagAt(s)..])
    ensures TagSafe(s)
  {
  }

  /** What follows the inserted tag a tag-safe string starts with is tag-safe. */
  lemma TagSafeAfterTag(s: string)
    requires TagSafe(s) && s != [] && s[0] == '<'
    ensures TagAt(s) > 0 && TagSafe(s[TagAt(s)..])
  {
  }

  lemma TagSafeTail(s: string)
    requires TagSafe(s) && s != [] && s[0] != '<'
    ensures TagSafe(s[1..])
  {
  }

  lemma TagSafeCons(c: char, s: string)
    requires TagSafe(s) && c != '<' && c != '>'
    ensures TagSafe([c] + s)
  {
    assert ([c] + s)[1..] == s;
  }

  lemma {:induction false} TagSafeCut(s: string, k: nat)
    requires TagSafe(s) && CutPoint(s, k)
    ensures TagSafe(s[..k]) && TagSafe(s[k..])
    decreases |s|, 1
  {
    if k == 0 {
      assert s[..0] == [] && s[0..] == s;
    } else if k == |s| {
      assert s[..k] == s && s[k..] == [];
    } else if s[0] == '<' {
      TagSafeCutAfterTag(s, k);
    } else {
      TagSafeCutAfterChar(s, k);
    }
  }

  lemma {:induction false} TagSafeCutAfterTag(s: string, k: nat)
    requires TagSafe(s) && CutPoint(s, k) && 0 < k < |s| && s[0] == '<'
    ensures TagSafe(s[..k]) && TagSafe(s[k..])
    decreases |s|, 0
  {
    CutPointAfterTag(s, k);
    TagSafeAfterTag(s);
    CutPointShifts(s, k, TagAt(s));
    TagSafeCut(s[TagAt(s)..], k - TagAt(s));
    CutAroundTag(s, k, TagAt(s));
  }

  /** A cut beyond the leading tag is a cut of what follows the tag. */
  lemma CutPointShifts(s: string, k: nat, n: nat)
    requires CutPoint(s, k) && 0 < n <= k < |s|
    ensures CutPoint(s[n..], k - n)
  {
    assert s[n..][k - n] == s[k];
    if n < k {
      assert s[n..][k - n - 1] == s[k - 1];
    }
  }

  /** The two sides of a cut beyond the leading tag are tag-safe when the tail's are. */
  lemma CutAroundTag(s: string, k: nat, n: nat)
    requires s != [] && s[0] == '<' && n == TagAt(s) && 0 < n <= k < |s|
    requires TagSafe(s[n..][..k - n]) && TagSafe(s[n..][k - n..])
    ensures TagSafe(s[..k]) && TagSafe(s[k..])
  {
    InsertedTagIsTagSafe(s[..n]);
    TagSafeConcat(s[..n], s[n..][..k - n]);
    SlicesAroundCut(s, n, k);
  }

  lemma SlicesAroundCut(s: string, n: nat, k: nat)
    requires n <= k <= |s|
    ensures s[..k] == s[..n] + s[n..][..k - n]
    ensures s[k..] == s[n..][k - n..]
  {
  }

  lemma {:induction false} TagSafeCutAfterChar(s: string, k: nat)
    requires TagSafe(s) && CutPoint(s, k) && 0 < k < |s| && s[0] != '<'
    ensures TagSafe(s[..k]) && TagSafe(s[k..])
    decreases |s|, 0
  {
    var u := s[1..];
    TagSafeTail(s);
    TagSafeCut(u, k - 1);
    TagSafeCons(s[0], u[..k - 1]);
    assert s[..k] == [s[0]] + u[..k - 1];
    assert s[k..] == u[k - 1..];
  }

  lemma TagNameFacts(tag: string)
    requires tag in TagNames
    ensures IsInsertedTag(OpenTag(tag)) && IsInsertedTag(CloseTag(tag))
  {
    if tag == "strong" {
      assert OpenTag(tag) == "<strong>" && CloseTag(tag) == "</strong>";
    } else if tag == "em" {
      assert OpenTag(tag) == "<em>" && CloseTag(tag) == "</em>";
    } else {
      assert OpenTag(tag) == "<code>" && CloseTag(tag) == "</code>";
    }
  }

  /** Cutting a tag-safe string around a matched delimiter pair leaves tag-safe pieces. */
  lemma MatchedPiecesTagSafe(s: string, d: string, j: nat)
    requires IsDelimiter(d) && TagSafe(s)
    requires OccursAt(s, d, 0) && OccursAt(s, d, j) && |d| <= j
    ensures TagSafe(s[|d|..j]) && TagSafe(s[j + |d|..])
  {
    assert s[|d| - 1] == d[|d| - 1];
    TagSafeCut(s, |d|);
    var tail := s[|d|..];
    assert tail[j - |d|] == d[0];
    TagSafeCut(tail, j - |d|);
    assert tail[..j - |d|] == s[|d|..j];
    var last := s[j..];
    assert last == tail[j - |d|..];
    assert last[|d| - 1] == d[|d| - 1];
    TagSafeCut(last, |d|);
    assert last[|d|..] == s[j + |d|..];
  }

  lemma WrappedTagSafe(tag: string, content: string, rest: string)
    requires tag in TagNames && TagSafe(content) && TagSafe(rest)
    ensures TagSafe(OpenTag(tag) + content + CloseTag(tag) + rest)
  {
    TagNameFacts(tag);
    var open, close := OpenTag(tag), CloseTag(tag);
    InsertedTagIsTagSafe(open);
    InsertedTagIsTagSafe(close);
    var a := close + rest;
    TagSafeConcat(close, rest);
    var b := content + a;
    TagSafeConcat(content, a);
    TagSafeConcat(open, b);
    AppendAssociates(content, close, rest);
    AppendAssociates(open, content + close, rest);
    AppendAssociates(open, content, close);
  }

  /** A delimiter pass keeps every angle bracket inside an inserted tag. */
  lemma {:induction false} ReplaceDelimitedKeepsTagSafe(s: string, d: string, tag: string)
    requires IsDelimiter(d) && tag in TagNames
    requires TagSafe(s)
    ensures TagSafe(ReplaceDelimited(s, d, tag))
    decreases |s|, 1
  {
    if s == [] {
    } else if OccursAt(s, d, 0) && FindClose(s, d, |d|).Some? {
      PairKeepsTagSafe(s, d, tag);
    } else if s[0] == '<' {
      TagCopyKeepsTagSafe(s, d, tag);
    } else {
      CharCopyKeepsTagSafe(s, d, tag);
    }
  }

  lemma {:induction false} PairKeepsTagSafe(s: string, d: string, tag: string)
    requires IsDelimiter(d) && tag in TagNames
    requires TagSafe(s) && OccursAt(s, d, 0) && FindClose(s, d, |d|).Some?
    ensures TagSafe(ReplaceDelimited(s, d, tag))
    decreases |s|, 0
  {
    MatchedPiecesTagSafe(s, d, FindClose(s, d, |d|).value);
    ReplaceDelimitedKeepsTagSafe(s[FindClose(s, d, |d|).value + |d|..], d, tag);
    PairedOutputTagSafe(s, d, tag);
  }

  /** The output of a pairing step is tag-safe when the enclosed text and the rest of the pass are. */
  lemma PairedOutputTagSafe(s: string, d: string, tag: string)
    requires d != [] && tag in TagNames && OccursAt(s, d, 0) && FindClose(s, d, |d|).Some?
    requires TagSafe(s[|d|..FindClose(s, d, |d|).value])
    requires TagSafe(ReplaceDelimited(s[FindClose(s, d, |d|).value + |d|..], d, tag))
    ensures TagSafe(ReplaceDelimited(s, d, tag))
  {
    WrappedTagSafe(tag, s[|d|..FindClose(s, d, |d|).value], ReplaceDelimited(s[FindClose(s, d, |d|).value + |d|..], d, tag));
    PassAtPair(s, d, tag);
  }

  lemma {:induction false} TagCopyKeepsTagSafe(s: string, d: string, tag: string)
    requires IsDelimiter(d) && tag in TagNames
    requires TagSafe(s) && s != [] && s[0] == '<'
    ensures TagSafe(ReplaceDelimited(s, d, tag))
    decreases |s|, 0
  {
    var n := TagAt(s);
    var t := s[..n];
    InsertedTagFacts(t);
    assert IsDelimiterChar(d[0]);
    forall p | 0 <= p < n
      ensures s[p] != d[0]
    {
      assert s[p] == t[p];
    }
    CopyPrefix(s, d, tag, n);
    ReplaceDelimitedKeepsTagSafe(s[n..], d, tag);
    InsertedTagIsTagSafe(t);
    TagSafeConcat(t, ReplaceDelimited(s[n..], d, tag));
  }

  lemma {:induction false} CharCopyKeepsTagSafe(s: string, d: string, tag: string)
    requires IsDelimiter(d) && tag in TagNames
    requires TagSafe(s) && s != [] && s[0] != '<'
    requires !(OccursAt(s, d, 0) && FindClose(s, d, |d|).Some?)
    ensures TagSafe(ReplaceDelimited(s, d, tag))
    decreases |s|, 0
  {
    TagSafeTail(s);
    ReplaceDelimitedKeepsTagSafe(s[1..], d, tag);
    var r' := ReplaceDelimited(s[1..], d, tag);
    PassAtChar(s, d, tag);
    TagSafeCons(s[0], r');
  }

  /**
   * Every `<` and `>` of the final markup belongs to a `strong`, `em` or `code` tag inserted
   * by a delimiter pass: none comes from the payload.
   */
  lemma MarkupAngleBracketsAreTags(text: string)
    ensures TagSafe(CreateMarkup(text))
  {
    var escaped := Escape(text);
    PlainIsTagSafe(escaped);
    var bold := ReplaceDelimited(escaped, "**", "strong");
    ReplaceDelimitedKeepsTagSafe(escaped, "**", "strong");
    var italic := ReplaceDelimited(bold, "*", "em");
    ReplaceDelimitedKeepsTagSafe(bold, "*", "em");
    ReplaceDelimitedKeepsTagSafe(italic, "`", "code");
  }

  // ---------------------------------------------------------------------------
  // Reading a pass backwards: the captured text `$1` is kept between the tags

  /**
   * The inverse reading of a pass: scanning `r` left to right, each of the pass's own
   * opening and closing tags is written back as the delimiter and any other character is kept.
   */
  function Unwrap(r: string, d: string, tag: string): string
    decreases |r|
  {
    if r == [] then []
    else if OpenTag(tag) <= r then d + Unwrap(r[|OpenTag(tag)|..], d, tag)
    else if CloseTag(tag) <= r then d + Unwrap(r[|CloseTag(tag)|..], d, tag)
    else [r[0]] + Unwrap(r[1..], d, tag)
  }

  /** Neither of the two tags a pass inserts occurs in `s`. */
  ghost predicate WithoutTagsOf(s: string, tag: string) {
    forall i :: !OccursAt(s, OpenTag(tag), i) && !OccursAt(s, CloseTag(tag), i)
  }

  /**
   * A pass loses nothing: reading its output backwards gives its input, so every pair's
   * inner text stands between the tags as it was and the text around the pairs is kept.
   * This holds for each pass of the chain whose input is tag-safe and holds none of the
   * pass's own tags.
   */
  lemma {:induction false} ReplaceDelimitedUnwraps(s: string, d: string, tag: string)
    requires IsDelimiter(d) && tag in TagNames
    requires TagSafe(s) && WithoutTagsOf(s, tag)
    ensures Unwrap(ReplaceDelimited(s, d, tag), d, tag) == s
    decreases |s|, 1
  {
    if s == [] {
    } else if OccursAt(s, d, 0) && FindClose(s, d, |d|).Some? {
      PairUnwraps(s, d, tag);
    } else if s[0] == '<' {
      TagCopyUnwraps(s, d, tag);
    } else {
      CharCopyUnwraps(s, d, tag);
    }
  }

  lemma {:induction false} PairUnwraps(s: string, d: string, tag: string)
    requires IsDelimiter(d) && tag in TagNames
    requires TagSafe(s) && WithoutTagsOf(s, tag) && OccursAt(s, d, 0) && FindClose(s, d, |d|).Some?
    ensures Unwrap(ReplaceDelimited(s, d, tag), d, tag) == s
    decreases |s|, 0
  {
    assert Unwrap(ReplaceDelimited(s[FindClose(s, d, |d|).value + |d|..], d, tag), d, tag)
           == s[FindClose(s, d, |d|).value + |d|..] by {
      MatchedPiecesTagSafe(s, d, FindClose(s, d, |d|).value);
      WithoutTagsOfSuffix(s, FindClose(s, d, |d|).value + |d|, tag);
      ReplaceDelimitedUnwraps(s[FindClose(s, d, |d|).value + |d|..], d, tag);
    }
    assert TagSafe(s[|d|..FindClose(s, d, |d|).value]) by {
      MatchedPiecesTagSafe(s, d, FindClose(s, d, |d|).value);
    }
    assert WithoutTagsOf(s[|d|..FindClose(s, d, |d|).value], tag) by {
      ContentWithoutTags(s, d, tag, FindClose(s, d, |d|).value);
    }
    assert Unwrap(ReplaceDelimited(s, d, tag), d, tag)
           == d + s[|d|..FindClose(s, d, |d|).value] + d
              + Unwrap(ReplaceDelimited(s[FindClose(s, d, |d|).value + |d|..], d, tag), d, tag) by {
      PairedOutputUnwraps(s, d, tag);
    }
    DelimitedPieces(s, d, FindClose(s, d, |d|).value);
  }

  /** The text between a matched pair holds none of the pass's tags either. */
  lemma ContentWithoutTags(s: string, d: string, tag: string, j: nat)
    requires |d| <= j <= |s| && WithoutTagsOf(s, tag)
    ensures WithoutTagsOf(s[|d|..j], tag)
  {
    WithoutTagsOfSuffix(s, |d|, tag);
    WithoutTagsOfPrefix(s[|d|..], j - |d|, tag);
    assert s[|d|..][..j - |d|] == s[|d|..j];
  }

  /** A pairing step reads back as the pair of delimiters around the kept inner text, then the rest. */
  lemma PairedOutputUnwraps(s: string, d: string, tag: string)
    requires d != [] && tag in TagNames && OccursAt(s, d, 0) && FindClose(s, d, |d|).Some?
    requires TagSafe(s[|d|..FindClose(s, d, |d|).value]) && WithoutTagsOf(s[|d|..FindClose(s, d, |d|).value], tag)
    ensures Unwrap(ReplaceDelimited(s, d, tag), d, tag)
            == d + s[|d|..FindClose(s, d, |d|).value] + d
               + Unwrap(ReplaceDelimited(s[FindClose(s, d, |d|).value + |d|..], d, tag), d, tag)
  {
    PassAtPair(s, d, tag);
    WrappedUnwraps(tag, s[|d|..FindClose(s, d, |d|).value],
                   ReplaceDelimited(s[FindClose(s, d, |d|).value + |d|..], d, tag), d);
  }

  /** A string that starts and ends a delimiter pair is the pair around its inner text, then the rest. */
  lemma DelimitedPieces(s: string, d: string, j: nat)
    requires OccursAt(s, d, 0) && OccursAt(s, d, j) && |d| <= j
    ensures s == d + s[|d|..j] + d + s[j + |d|..]
  {
    assert s == s[..|d|] + s[|d|..j] + s[j..j + |d|] + s[j + |d|..];
  }

  /** The tag pair reads back as two delimiters around the unchanged inner text. */
  lemma WrappedUnwraps(tag: string, content: string, y: string, d: string)
    requires tag in TagNames && TagSafe(content) && WithoutTagsOf(content, tag)
    ensures Unwrap(OpenTag(tag) + content + CloseTag(tag) + y, d, tag) == d + content + d + Unwrap(y, d, tag)
  {
    var open, close := OpenTag(tag), CloseTag(tag);
    assert open + content + close + y == open + (content + (close + y)) by {
      AppendAssociates(content, close, y);
      AppendAssociates(open, content + close, y);
      AppendAssociates(open, content, close);
    }
    OpenTagUnwraps(tag, content + (close + y), d);
    UnwrapKeepsPlain(content, close + y, d, tag);
    CloseTagUnwraps(tag, y, d);
    var rest := Unwrap(y, d, tag);
    assert d + (content + (d + rest)) == d + content + d + rest by {
      AppendAssociates(content, d, rest);
      AppendAssociates(d, content + d, rest);
      AppendAssociates(d, content, d);
    }
  }

  lemma OpenTagUnwraps(tag: string, y: string, d: string)
    ensures Unwrap(OpenTag(tag) + y, d, tag) == d + Unwrap(y, d, tag)
  {
    assert (OpenTag(tag) + y)[|OpenTag(tag)|..] == y;
  }

  lemma CloseTagUnwraps(tag: string, y: string, d: string)
    requires tag in TagNames
    ensures Unwrap(CloseTag(tag) + y, d, tag) == d + Unwrap(y, d, tag)
  {
    var r := CloseTag(tag) + y;
    assert r[1] == '/' && OpenTag(tag)[1] == tag[0] != '/';
    assert r[|CloseTag(tag)|..] == y;
  }

  /** A character other than `<` is kept. */
  lemma UnwrapAtChar(r: string, d: string, tag: string)
    requires r != [] && r[0] != '<'
    ensures Unwrap(r, d, tag) == [r[0]] + Unwrap(r[1..], d, tag)
  {
    assert OpenTag(tag)[0] == '<' && CloseTag(tag)[0] == '<';
  }

  /** A stretch without `<` is kept as it is. */
  lemma {:induction false} UnwrapPlainPrefix(r: string, k: nat, d: string, tag: string)
    requires k <= |r| && forall p :: 0 <= p < k ==> r[p] != '<'
    ensures Unwrap(r, d, tag) == r[..k] + Unwrap(r[k..], d, tag)
    decreases k
  {
    if k > 0 {
      UnwrapAtChar(r, d, tag);
      UnwrapPlainPrefix(r[1..], k - 1, d, tag);
      SlicesAfterFirst(r, k);
      AppendAssociates([r[0]], r[1..][..k - 1], Unwrap(r[k..], d, tag));
    } else {
      assert r[..0] == [] && r[0..] == r;
    }
  }

  lemma PlainFront(x: string, y: string, d: string, tag: string)
    requires forall p :: 0 <= p < |x| ==> x[p] != '<'
    ensures Unwrap(x + y, d, tag) == x + Unwrap(y, d, tag)
  {
    var r := x + y;
    forall p | 0 <= p < |x|
      ensures r[p] != '<'
    {
      assert r[p] == x[p];
    }
    UnwrapPlainPrefix(r, |x|, d, tag);
    assert r[..|x|] == x && r[|x|..] == y;
  }

  /** Only the first character of an inserted tag is `<`. */
  lemma InsertedTagOpensOnce(u: string)
    requires IsInsertedTag(u)
    ensures u != [] && u[0] == '<' && forall p :: 0 < p < |u| ==> u[p] != '<'
  {
  }

  /**
   * An inserted tag other than the pass's own is not mistaken for one of them, even when
   * more text follows it.
   */
  lemma OtherTagIsKept(u: string, y: string, tag: string)
    requires IsInsertedTag(u) && tag in TagNames && u != OpenTag(tag) && u != CloseTag(tag)
    ensures !(OpenTag(tag) <= u + y) && !(CloseTag(tag) <= u + y)
  {
    TagNameFacts(tag);
    NotAPrefixOfEachOther(u, OpenTag(tag), y);
    NotAPrefixOfEachOther(u, CloseTag(tag), y);
  }

  /** Two different inserted tags: neither starts `u + y` when `u` is the other. */
  lemma NotAPrefixOfEachOther(u: string, t: string, y: string)
    requires IsInsertedTag(u) && IsInsertedTag(t) && u != t
    ensures !(t <= u + y)
  {
    InsertedTagFacts(u);
    InsertedTagFacts(t);
    if |t| < |u| {
      // `t` closes where `u` does not
      assert t[|t| - 1] != (u + y)[|t| - 1];
    } else if |u| < |t| {
      // `u` closes where `t` does not
      assert t[|u| - 1] != (u + y)[|u| - 1];
    }
  }

  /** An inserted tag that is not the pass's own is kept. */
  lemma OtherTagStep(u: string, y: string, d: string, tag: string)
    requires IsInsertedTag(u) && tag in TagNames && u != OpenTag(tag) && u != CloseTag(tag)
    ensures Unwrap(u + y, d, tag) == u + Unwrap(y, d, tag)
  {
    OtherTagIsKept(u, y, tag);
    InsertedTagOpensOnce(u);
    KeptTextStep(u, y, d, tag);
  }

  /** A stretch with `<` at most at its front that does not start a pass's tag is kept. */
  lemma KeptTextStep(u: string, y: string, d: string, tag: string)
    requires u != [] && forall p :: 0 < p < |u| ==> u[p] != '<'
    requires !(OpenTag(tag) <= u + y) && !(CloseTag(tag) <= u + y)
    ensures Unwrap(u + y, d, tag) == u + Unwrap(y, d, tag)
  {
    UnwrapAtOther(u + y, d, tag);
    assert (u + y)[1..] == u[1..] + y;
    TagTailIsPlain(u, y, d, tag);
    AppendAssociates([u[0]], u[1..], Unwrap(y, d, tag));
    assert [u[0]] + u[1..] == u;
  }

  /** A text that does not start with one of the pass's tags keeps its first character. */
  lemma UnwrapAtOther(r: string, d: string, tag: string)
    requires r != [] && !(OpenTag(tag) <= r) && !(CloseTag(tag) <= r)
    ensures Unwrap(r, d, tag) == [r[0]] + Unwrap(r[1..], d, tag)
  {
  }

  /** After its `<`, an inserted tag is copied as plain text. */
  lemma TagTailIsPlain(u: string, y: string, d: string, tag: string)
    requires u != [] && forall p :: 0 < p < |u| ==> u[p] != '<'
    ensures Unwrap(u[1..] + y, d, tag) == u[1..] + Unwrap(y, d, tag)
  {
    forall p | 0 <= p < |u[1..]|
      ensures u[1..][p] != '<'
    {
      assert u[1..][p] == u[p + 1];
    }
    PlainFront(u[1..], y, d, tag);
  }

  /** The inserted tag a string without the pass's tags starts with is not one of them. */
  lemma FrontTagIsOther(s: string, tag: string)
    requires TagAt(s) > 0 && WithoutTagsOf(s, tag)
    ensures s[..TagAt(s)] != OpenTag(tag) && s[..TagAt(s)] != CloseTag(tag)
  {
    assert !OccursAt(s, OpenTag(tag), 0) && !OccursAt(s, CloseTag(tag), 0);
    assert s[0..TagAt(s)] == s[..TagAt(s)];
  }

  /** A tag-safe stretch without the pass's tags is kept as it is, whatever follows it. */
  lemma {:induction false} UnwrapKeepsPlain(a: string, b: string, d: string, tag: string)
    requires tag in TagNames && TagSafe(a) && WithoutTagsOf(a, tag)
    ensures Unwrap(a + b, d, tag) == a + Unwrap(b, d, tag)
    decreases |a|
  {
    if a == [] {
      assert a + b == b;
    } else if a[0] == '<' {
      TagSafeAfterTag(a);
      var n := TagAt(a);
      WithoutTagsOfSuffix(a, n, tag);
      UnwrapKeepsPlain(a[n..], b, d, tag);
      FrontTagIsOther(a, tag);
      KeptTagUnwraps(a[..n], a[n..], b, d, tag);
      assert a[..n] + a[n..] == a;
    } else {
      TagSafeTail(a);
      WithoutTagsOfSuffix(a, 1, tag);
      UnwrapKeepsPlain(a[1..], b, d, tag);
      KeptCharUnwraps(a, b, d, tag);
    }
  }

  lemma KeptCharUnwraps(a: string, b: string, d: string, tag: string)
    requires a != [] && a[0] != '<'
    requires Unwrap(a[1..] + b, d, tag) == a[1..] + Unwrap(b, d, tag)
    ensures Unwrap(a + b, d, tag) == a + Unwrap(b, d, tag)
  {
    assert (a + b)[0] == a[0] && (a + b)[1..] == a[1..] + b;
    UnwrapAtChar(a + b, d, tag);
    AppendAssociates([a[0]], a[1..], Unwrap(b, d, tag));
    assert [a[0]] + a[1..] == a;
  }

  lemma KeptTagUnwraps(u: string, x: string, b: string, d: string, tag: string)
    requires IsInsertedTag(u) && tag in TagNames && u != OpenTag(tag) && u != CloseTag(tag)
    requires Unwrap(x + b, d, tag) == x + Unwrap(b, d, tag)
    ensures Unwrap(u + x + b, d, tag) == u + x + Unwrap(b, d, tag)
  {
    OtherTagStep(u, x + b, d, tag);
    AppendAssociates(u, x, b);
    AppendAssociates(u, x, Unwrap(b, d, tag));
  }

  lemma WithoutTagsOfSuffix(s: string, n: nat, tag: string)
    requires n <= |s| && WithoutTagsOf(s, tag)
    ensures WithoutTagsOf(s[n..], tag)
  {
    forall i
      ensures !OccursAt(s[n..], OpenTag(tag), i) && !OccursAt(s[n..], CloseTag(tag), i)
    {
      if OccursAt(s[n..], OpenTag(tag), i) {
        assert s[n..][i..i + |OpenTag(tag)|] == s[n + i..n + i + |OpenTag(tag)|];
        assert OccursAt(s, OpenTag(tag), n + i);
      }
      if OccursAt(s[n..], CloseTag(tag), i) {
        assert s[n..][i..i + |CloseTag(tag)|] == s[n + i..n + i + |CloseTag(tag)|];
        assert OccursAt(s, CloseTag(tag), n + i);
      }
    }
  }

  lemma WithoutTagsOfPrefix(s: string, n: nat, tag: string)
    requires n <= |s| && WithoutTagsOf(s, tag)
    ensures WithoutTagsOf(s[..n], tag)
  {
    forall i
      ensures !OccursAt(s[..n], OpenTag(tag), i) && !OccursAt(s[..n], CloseTag(tag), i)
    {
      if OccursAt(s[..n], OpenTag(tag), i) {
        assert s[..n][i..i + |OpenTag(tag)|] == s[i..i + |OpenTag(tag)|];
        assert OccursAt(s, OpenTag(tag), i);
      }
      if OccursAt(s[..n], CloseTag(tag), i) {
        assert s[..n][i..i + |CloseTag(tag)|] == s[i..i + |CloseTag(tag)|];
        assert OccursAt(s, CloseTag(tag), i);
      }
    }
  }

  lemma {:induction false} TagCopyUnwraps(s: string, d: string, tag: string)
    requires IsDelimiter(d) && tag in TagNames
    requires TagSafe(s) && WithoutTagsOf(s, tag) && s != [] && s[0] == '<'
    ensures Unwrap(ReplaceDelimited(s, d, tag), d, tag) == s
    decreases |s|, 0
  {
    TagSafeAfterTag(s);
    TagIsCopied(s, d, tag);
    WithoutTagsOfSuffix(s, TagAt(s), tag);
    ReplaceDelimitedUnwraps(s[TagAt(s)..], d, tag);
    FrontTagIsOther(s, tag);
    TagCopyOutputUnwraps(s, ReplaceDelimited(s[TagAt(s)..], d, tag), d, tag);
  }

  /** A pass copies the inserted tag its input starts with. */
  lemma TagIsCopied(s: string, d: string, tag: string)
    requires IsDelimiter(d) && TagAt(s) > 0
    ensures ReplaceDelimited(s, d, tag) == s[..TagAt(s)] + ReplaceDelimited(s[TagAt(s)..], d, tag)
  {
    var n := TagAt(s);
    var t := s[..n];
    InsertedTagFacts(t);
    assert IsDelimiterChar(d[0]);
    forall p | 0 <= p < n
      ensures s[p] != d[0]
    {
      assert s[p] == t[p];
    }
    CopyPrefix(s, d, tag, n);
  }

  lemma TagCopyOutputUnwraps(s: string, y: string, d: string, tag: string)
    requires tag in TagNames && TagAt(s) > 0
    requires s[..TagAt(s)] != OpenTag(tag) && s[..TagAt(s)] != CloseTag(tag)
    requires Unwrap(y, d, tag) == s[TagAt(s)..]
    ensures Unwrap(s[..TagAt(s)] + y, d, tag) == s
  {
    OtherTagStep(s[..TagAt(s)], y, d, tag);
    assert s[..TagAt(s)] + s[TagAt(s)..] == s;
  }

  lemma {:induction false} CharCopyUnwraps(s: string, d: string, tag: string)
    requires IsDelimiter(d) && tag in TagNames
    requires TagSafe(s) && WithoutTagsOf(s, tag) && s != [] && s[0] != '<'
    requires !(OccursAt(s, d, 0) && FindClose(s, d, |d|).Some?)
    ensures Unwrap(ReplaceDelimited(s, d, tag), d, tag) == s
    decreases |s|, 0
  {
    TagSafeTail(s);
    WithoutTagsOfSuffix(s, 1, tag);
    ReplaceDelimitedUnwraps(s[1..], d, tag);
    PassAtChar(s, d, tag);
    var r := [s[0]] + ReplaceDelimited(s[1..], d, tag);
    assert r[0] == s[0] && r[1..] == ReplaceDelimited(s[1..], d, tag);
    UnwrapAtChar(r, d, tag);
    assert [s[0]] + s[1..] == s;
  }

  /** Text without `<` holds no tag. */
  lemma PlainIsWithoutTags(s: string, tag: string)
    requires '<' !in s
    ensures WithoutTagsOf(s, tag)
  {
    forall i
      ensures !OccursAt(s, OpenTag(tag), i) && !OccursAt(s, CloseTag(tag), i)
    {
      assert OpenTag(tag)[0] == '<' && CloseTag(tag)[0] == '<';
      if 0 <= i < |s| {
        assert s[i] in s;
        assert s[i..][0] == s[i];
      }
    }
  }

  /** In `createMarkup`, the bold pass read backwards gives the escaped payload back. */
  lemma BoldPassUnwraps(text: string)
    ensures Unwrap(ReplaceDelimited(Escape(text), "**", "strong"), "**", "strong") == Escape(text)
  {
    PlainIsTagSafe(Escape(text));
    PlainIsWithoutTags(Escape(text), "strong");
    assert "strong" in TagNames;
    ReplaceDelimitedUnwraps(Escape(text), "**", "strong");
  }

  // ---------------------------------------------------------------------------
  // Pairing: after a pass at most one delimiter of its kind is left unpaired

  /** Every two occurrences of `d` in `s` overlap: no two disjoint delimiters remain. */
  ghost predicate AtMostOneDelimiter(s: string, d: string) {
    forall i, j :: OccursAt(s, d, i) && OccursAt(s, d, j) ==> i < j + |d| && j < i + |d|
  }

  /** Up to its first `<`, a pass's output is a copy of its input. */
  lemma {:induction false} OutputAgreesBeforeTag(t: string, d: string, tag: string)
    requires d != [] && tag in TagNames
    ensures forall k :: 0 <= k <= |ReplaceDelimited(t, d, tag)| && '<' !in ReplaceDelimited(t, d, tag)[..k] ==>
                k <= |t| && ReplaceDelimited(t, d, tag)[..k] == t[..k]
    decreases |t|
  {
    var r := ReplaceDelimited(t, d, tag);
    if t == [] {
    } else if OccursAt(t, d, 0) && FindClose(t, d, |d|).Some? {
      TagNameFacts(tag);
      assert r[0] == '<';
      forall k | 1 <= k <= |r|
        ensures '<' in r[..k]
      {
        assert r[..k][0] == '<';
      }
    } else {
      OutputAgreesBeforeTag(t[1..], d, tag);
      var r' := ReplaceDelimited(t[1..], d, tag);
      assert r == [t[0]] + r';
      forall k | 1 <= k <= |r| && '<' !in r[..k]
        ensures k <= |t| && r[..k] == t[..k]
      {
        assert r[..k] == [t[0]] + r'[..k - 1];
        assert forall x :: x in r'[..k - 1] ==> x in r[..k];
        assert t[..k] == [t[0]] + t[1..][..k - 1];
      }
    }
  }

  /** When no delimiter starts at or after `m` (with `m` at most `|d|`), nothing can be paired. */
  lemma {:induction false} NothingToPair(t: string, d: string, tag: string, m: nat)
    requires d != [] && m <= |d|
    requires forall q :: m <= q ==> !OccursAt(t, d, q)
    ensures ReplaceDelimited(t, d, tag) == t
    decreases |t|
  {
    if t != [] {
      var m' := if m > 0 then m - 1 else 0;
      assert forall q :: m' <= q ==> !OccursAt(t[1..], d, q) by {
        NoOccurrenceAfterFirst(t, d, m);
      }
      assert !(OccursAt(t, d, 0) && FindClose(t, d, |d|).Some?) by {
        if OccursAt(t, d, 0) {
          NoCloseBeyond(t, d, m);
        }
      }
      PassAtChar(t, d, tag);
      NothingToPair(t[1..], d, tag, m');
      assert t == [t[0]] + t[1..];
    }
  }

  /** A closing delimiter would have to start at or after `|d|`. */
  lemma NoCloseBeyond(t: string, d: string, m: nat)
    requires m <= |d| <= |t| && forall q :: m <= q ==> !OccursAt(t, d, q)
    ensures FindClose(t, d, |d|).None?
  {
  }

  /** Dropping the first character moves every occurrence one position to the left. */
  lemma NoOccurrenceAfterFirst(t: string, d: string, m: nat)
    requires t != [] && forall q :: m <= q ==> !OccursAt(t, d, q)
    ensures forall q :: m - 1 <= q ==> !OccursAt(t[1..], d, q)
  {
    forall q | m - 1 <= q && 0 <= q && q + |d| <= |t| - 1
      ensures !OccursAt(t[1..], d, q)
    {
      assert t[1..][q..q + |d|] == t[q + 1..q + 1 + |d|];
      assert !OccursAt(t, d, q + 1);
    }
  }

  /** Occurrences of a delimiter in `<tag>content</tag>rest` all lie in `rest`. */
  lemma TagsHideDelimiters(tag: string, content: string, rest: string, d: string)
    requires IsDelimiter(d) && tag in TagNames
    requires forall p :: !OccursAt(content, d, p)
    ensures forall i :: OccursAt(OpenTag(tag) + content + CloseTag(tag) + rest, d, i) ==>
              |OpenTag(tag) + content + CloseTag(tag)| <= i && OccursAt(rest, d, i - |OpenTag(tag) + content + CloseTag(tag)|)
  {
    var x := OpenTag(tag) + content + CloseTag(tag);
    var r := x + rest;
    forall i | OccursAt(r, d, i)
      ensures |x| <= i && OccursAt(rest, d, i - |x|)
    {
      NoDelimiterStartsInTags(tag, content, rest, d, i);
      assert rest[i - |x|..i - |x| + |d|] == r[i..i + |d|];
    }
  }

  /** A slice that lies past `a` in `a + b` is a slice of `b`. */
  lemma SliceAfterFront(a: string, b: string, i: nat, k: nat)
    requires |a| <= i <= k <= |a| + |b|
    ensures (a + b)[i..k] == b[i - |a|..k - |a|]
  {
  }

  /** No delimiter starts inside `<tag>content</tag>` of `<tag>content</tag>rest`. */
  lemma NoDelimiterStartsInTags(tag: string, content: string, rest: string, d: string, i: nat)
    requires IsDelimiter(d) && tag in TagNames
    requires forall p :: !OccursAt(content, d, p)
    ensures i < |OpenTag(tag) + content + CloseTag(tag)| ==> !OccursAt(OpenTag(tag) + content + CloseTag(tag) + rest, d, i)
  {
    var open, close := OpenTag(tag), CloseTag(tag);
    TagNameFacts(tag);
    InsertedTagFacts(open);
    InsertedTagFacts(close);
    var x := open + content + close;
    var r := x + rest;
    var e := |open| + |content|;
    assert IsDelimiterChar(d[0]);
    if i < |open| {
      assert r[i] == open[i];
    } else if i < e {
      if i + |d| <= |r| {
        if i + |d| <= e {
          assert r[i..i + |d|] == x[i..i + |d|];
          assert x[i..i + |d|] == (open + content)[i..i + |d|];
          SliceAfterFront(open, content, i, i + |d|);
          assert !OccursAt(content, d, i - |open|);
        } else {
          assert r[e] == '<';
          assert IsDelimiterChar(d[e - i]);
          assert r[i..i + |d|][e - i] == r[e];
        }
      }
    } else if i < |x| {
      assert r[i] == close[i - e];
    }
  }

  /**
   * Each pass pairs a delimiter with the nearest following one and resumes after it. On a
   * payload without line terminators this leaves at most one delimiter of the pass's kind
   * in its output: an opening delimiter is left unpaired only when no delimiter follows it,
   * and no delimiter survives inside a pair's content.
   */
  lemma {:induction false} PassLeavesOneUnpaired(s: string, d: string, tag: string)
    requires IsDelimiter(d) && tag in TagNames
    requires NoLineTerminator(s)
    ensures AtMostOneDelimiter(ReplaceDelimited(s, d, tag), d)
    decreases |s|, 1
  {
    if s == [] {
    } else if OccursAt(s, d, 0) && FindClose(s, d, |d|).Some? {
      PairedLeavesOneUnpaired(s, d, tag);
    } else if OccursAt(s, d, 0) {
      FindCloseIsNearest(s, d, |d|);
      forall q | |d| <= q
        ensures !OccursAt(s, d, q)
      {
        assert OccursAt(s, d, q) ==> ClosesAt(s, d, |d|, q);
      }
      NothingToPair(s, d, tag, |d|);
    } else {
      CopiedLeavesOneUnpaired(s, d, tag);
    }
  }

  /** The pass pairs the delimiter at the front: the content holds none, the rest is handled alone. */
  lemma {:induction false} PairedLeavesOneUnpaired(s: string, d: string, tag: string)
    requires IsDelimiter(d) && tag in TagNames
    requires NoLineTerminator(s)
    requires OccursAt(s, d, 0) && FindClose(s, d, |d|).Some?
    ensures AtMostOneDelimiter(ReplaceDelimited(s, d, tag), d)
    decreases |s|, 0
  {
    SuffixIsOneLine(s, FindClose(s, d, |d|).value + |d|);
    PassLeavesOneUnpaired(s[FindClose(s, d, |d|).value + |d|..], d, tag);
    PairedOutputOneUnpaired(s, d, tag);
  }

  /** Pairing the front delimiter keeps the property the rest of the pass has. */
  lemma PairedOutputOneUnpaired(s: string, d: string, tag: string)
    requires IsDelimiter(d) && tag in TagNames
    requires NoLineTerminator(s)
    requires OccursAt(s, d, 0) && FindClose(s, d, |d|).Some?
    requires AtMostOneDelimiter(ReplaceDelimited(s[FindClose(s, d, |d|).value + |d|..], d, tag), d)
    ensures AtMostOneDelimiter(ReplaceDelimited(s, d, tag), d)
  {
    PairedContentHasNoDelimiter(s, d);
    WrappedLeavesOneUnpaired(tag, s[|d|..FindClose(s, d, |d|).value], ReplaceDelimited(s[FindClose(s, d, |d|).value + |d|..], d, tag), d);
    PassAtPair(s, d, tag);
  }

  /** The nearest closing delimiter leaves no delimiter in the text it encloses. */
  lemma PairedContentHasNoDelimiter(s: string, d: string)
    requires d != [] && NoLineTerminator(s)
    requires OccursAt(s, d, 0) && FindClose(s, d, |d|).Some?
    ensures forall p :: !OccursAt(s[|d|..FindClose(s, d, |d|).value], d, p)
  {
    var j := FindClose(s, d, |d|).value;
    FindCloseIsNearest(s, d, |d|);
    var content := s[|d|..j];
    forall p | 0 <= p && p + |d| <= |content|
      ensures !OccursAt(content, d, p)
    {
      assert content[p..p + |d|] == s[|d| + p..|d| + p + |d|];
      assert ClosesAt(s, d, |d|, |d| + p) <==> OccursAt(s, d, |d| + p);
    }
  }

  lemma SuffixIsOneLine(s: string, n: nat)
    requires NoLineTerminator(s) && n <= |s|
    ensures NoLineTerminator(s[n..])
  {
    forall k | 0 <= k < |s[n..]|
      ensures !IsLineTerminator(s[n..][k])
    {
      assert s[n..][k] == s[n + k];
    }
  }

  /** A tag pair around delimiter-free text adds no delimiter to what follows it. */
  lemma WrappedLeavesOneUnpaired(tag: string, content: string, y: string, d: string)
    requires IsDelimiter(d) && tag in TagNames
    requires forall p :: !OccursAt(content, d, p)
    requires AtMostOneDelimiter(y, d)
    ensures AtMostOneDelimiter(OpenTag(tag) + content + CloseTag(tag) + y, d)
  {
    TagsHideDelimiters(tag, content, y, d);
  }

  /** The pass copies the first character, which cannot start a delimiter of the output. */
  lemma {:induction false} CopiedLeavesOneUnpaired(s: string, d: string, tag: string)
    requires IsDelimiter(d) && tag in TagNames
    requires NoLineTerminator(s)
    requires s != [] && !OccursAt(s, d, 0)
    ensures AtMostOneDelimiter(ReplaceDelimited(s, d, tag), d)
    decreases |s|, 0
  {
    var r' := ReplaceDelimited(s[1..], d, tag);
    SuffixIsOneLine(s, 1);
    PassLeavesOneUnpaired(s[1..], d, tag);
    PassAtChar(s, d, tag);
    CopiedFrontIsNotDelimiter(s, d, tag);
    ConsLeavesOneUnpaired(s[0], r', d);
  }

  /** One character in front of a string adds no delimiter unless one starts at that character. */
  lemma ConsLeavesOneUnpaired(c: char, r': string, d: string)
    requires d != [] && AtMostOneDelimiter(r', d) && !OccursAt([c] + r', d, 0)
    ensures AtMostOneDelimiter([c] + r', d)
  {
    var r := [c] + r';
    forall i | OccursAt(r, d, i)
      ensures 1 <= i && OccursAt(r', d, i - 1)
    {
      assert r[i..i + |d|] == r'[i - 1..i - 1 + |d|];
    }
  }

  /** A delimiter at the front of `[s[0]] + pass(s[1..])` was already a delimiter at the front of `s`. */
  lemma CopiedFrontIsNotDelimiter(s: string, d: string, tag: string)
    requires IsDelimiter(d) && tag in TagNames && s != []
    ensures OccursAt([s[0]] + ReplaceDelimited(s[1..], d, tag), d, 0) ==> OccursAt(s, d, 0)
  {
    OutputAgreesBeforeTag(s[1..], d, tag);
    FrontDelimiterAgrees(s[0], ReplaceDelimited(s[1..], d, tag), s[1..], d);
    assert [s[0]] + s[1..] == s;
  }

  /** A delimiter holds no `<`, so it reads the same in two strings that agree up to their first `<`. */
  lemma FrontDelimiterAgrees(c: char, r': string, t: string, d: string)
    requires IsDelimiter(d)
    requires forall k :: 0 <= k <= |r'| && '<' !in r'[..k] ==> k <= |t| && r'[..k] == t[..k]
    ensures OccursAt([c] + r', d, 0) ==> OccursAt([c] + t, d, 0)
  {
    var r := [c] + r';
    if OccursAt(r, d, 0) {
      var m := |d| - 1;
      assert r[1..|d|] == r'[..m];
      assert r'[..m] == d[1..];
      assert '<' !in r'[..m] by {
        forall k | 0 <= k < m ensures r'[..m][k] != '<' {
          assert r'[..m][k] == d[k + 1] && IsDelimiterChar(d[k + 1]);
        }
      }
      assert ([c] + t)[..|d|] == [c] + t[..m];
    }
  }

  /** A pass adds no line terminator: its output is one line when its input is. */
  lemma PassKeepsOneLine(s: string, d: string, tag: string)
    requires d != [] && tag in TagNames
    requires NoLineTerminator(s)
    ensures NoLineTerminator(ReplaceDelimited(s, d, tag))
  {
    var r := ReplaceDelimited(s, d, tag);
    TagNameFacts(tag);
    PassCharacters(s, d, tag);
    forall k | 0 <= k < |r|
      ensures !IsLineTerminator(r[k])
    {
      assert r[k] in r;
    }
  }

  /**
   * The whole chain on one line of text: after the last pass at most one backquote is left
   * unpaired (the earlier passes neither add nor remove backquotes from the payload's line).
   */
  lemma MarkupLeavesOneUnpairedBackquote(text: string)
    requires NoLineTerminator(text)
    ensures AtMostOneDelimiter(CreateMarkup(text), "`")
  {
    var escaped := Escape(text);
    forall k | 0 <= k < |escaped|
      ensures !IsLineTerminator(escaped[k])
    {
      assert escaped[k] in escaped;
    }
    var bold := ReplaceDelimited(escaped, "**", "strong");
    PassKeepsOneLine(escaped, "**", "strong");
    PassKeepsOneLine(bold, "*", "em");
    PassLeavesOneUnpaired(ReplaceDelimited(bold, "*", "em"), "`", "code");
  }

  // ---------------------------------------------------------------------------
  // Worked examples

  /** Empty contents are allowed: four asterisks are one empty bold pair. */
  lemma EmptyBoldPair()
    ensures CreateMarkup("****") == "<strong></strong>"
  {
    var bold := "<strong></strong>";
    assert '<' !in "****" && '>' !in "****";
    BoldPassOnFourStars();
    assert '*' !in bold && '`' !in bold;
    ReplaceDelimitedWithoutDelimiter(bold, "*", "em");
    ReplaceDelimitedWithoutDelimiter(bold, "`", "code");
  }

  lemma BoldPassOnFourStars()
    ensures ReplaceDelimited("****", "**", "strong") == "<strong></strong>"
  {
    var s := "****";
    assert OccursAt(s, "**", 0) by { assert s[0..2] == "**"; }
    assert FindClose(s, "**", 2) == Some(2) by { assert s[2..4] == "**"; }
    assert s[2..2] == [] && s[4..] == [];
    assert OpenTag("strong") + [] + CloseTag("strong") + [] == "<strong></strong>";
  }

  /** The first `*` pairs with the nearest one; the last is left unpaired. */
  lemma EmPairsNearest()
    ensures ReplaceDelimited("*a*b*", "*", "em") == "<em>a</em>b*"
  {
    var s := "*a*b*";
    assert OccursAt(s, "*", 0) by { assert s[0..1] == "*"; }
    assert FindClose(s, "*", 1) == Some(2) by {
      assert !OccursAt(s, "*", 1) by { assert s[1..2] == "a"; }
      assert OccursAt(s, "*", 2) by { assert s[2..3] == "*"; }
    }
    var rest := s[3..];
    assert rest == "b*";
    assert ReplaceDelimited(rest, "*", "em") == "b*" by {
      assert !OccursAt(rest, "*", 0) by { assert rest[0..1] == "b"; }
      assert rest[1..] == "*";
      assert FindClose("*", "*", 1) == None;
      assert ReplaceDelimited("*", "*", "em") == "*" by {
        assert ("*")[1..] == [];
      }
    }
    assert s[1..2] == "a";
    assert OpenTag("em") + "a" + CloseTag("em") + "b*" == "<em>a</em>b*";
  }
}
