/** The `configView.memberOnly.envs` row of the portal SQL, as the sync
    script's two regular expressions see it:

      rewrite:  ('configView\.memberOnly\.envs'\s*,\s*)'[^']*'(\s*,)
      findall:  'configView\.memberOnly\.envs'\s*,\s*'([^']+)'\s*,

    Both are matched here by hand. Every `\s*` is followed by a character
    that is not white space and `[^']*` by a quote, so at a given start index
    each pattern matches in at most one way; a match is recorded as the
    indices of its punctuation. */
module EnvRows {

  import opened Text

  const KeyName: string := "configView.memberOnly.envs"

  /** The quoted key the row starts with. */
  const Key: string := "'" + KeyName + "'"

  /** The value the rewrite writes, quotes included. */
  const DevValue: string := "'dev'"

  /** `\s`, restricted to the ASCII white-space characters: the space and
      the five control characters from tab (9) to carriage return (13). */
  predicate IsSpace(c: char)
  {
    c == ' ' || '\t' <= c <= '\r'
  }

  /** A match: the key starts at `start`; `comma1` is the comma after the
      key, `open` and `close` are the quotes around the value, `comma2` the
      comma that ends the match. */
  datatype EnvRow = EnvRow(start: nat, comma1: nat, open: nat, close: nat, comma2: nat)
  {
    /** The index just past the match. */
    function End(): nat { comma2 + 1 }
  }

  /** `m` is a match in `s`; `allowEmpty` chooses `[^']*` (the rewrite)
      over `[^']+` (the check). */
  predicate Shape(s: string, m: EnvRow, allowEmpty: bool)
  {
    && m.start + |Key| <= m.comma1 < m.open < m.close < m.comma2 < |s|
    && s[m.start..m.start + |Key|] == Key
    && (forall k :: m.start + |Key| <= k < m.comma1 ==> IsSpace(s[k]))
    && s[m.comma1] == ','
    && (forall k :: m.comma1 < k < m.open ==> IsSpace(s[k]))
    && s[m.open] == '\''
    && (forall k :: m.open < k < m.close ==> s[k] != '\'')
    && s[m.close] == '\''
    && (allowEmpty || m.open + 1 < m.close)
    && (forall k :: m.close < k < m.comma2 ==> IsSpace(s[k]))
    && s[m.comma2] == ','
  }

  /** The text of the value between the quotes. */
  function Value(s: string, m: EnvRow): string
    requires m.open < m.close <= |s|
  {
    s[m.open + 1..m.close]
  }

  /** Greedy `\s*` from index `k`. */
  function SkipSpace(s: string, k: nat): (j: nat)
    requires k <= |s|
    ensures k <= j <= |s|
    ensures forall x :: k <= x < j ==> IsSpace(s[x])
    ensures j < |s| ==> !IsSpace(s[j])
    decreases |s| - k
  {
    if k < |s| && IsSpace(s[k]) then SkipSpace(s, k + 1) else k
  }

  /** Greedy `[^']*` from index `k`. */
  function SkipToQuote(s: string, k: nat): (j: nat)
    requires k <= |s|
    ensures k <= j <= |s|
    ensures forall x :: k <= x < j ==> s[x] != '\''
    ensures j < |s| ==> s[j] == '\''
    decreases |s| - k
  {
    if k < |s| && s[k] != '\'' then SkipToQuote(s, k + 1) else k
  }

  /** Greedy `\s*` from `k` stops at the first character that is not white
      space. */
  lemma {:induction false} SkipSpaceStops(s: string, k: nat, j: nat)
    requires k <= j < |s| && !IsSpace(s[j])
    requires forall x :: k <= x < j ==> IsSpace(s[x])
    ensures SkipSpace(s, k) == j
    decreases j - k
  {
    if k < j {
      SkipSpaceStops(s, k + 1, j);
    }
  }

  /** Greedy `[^']*` from `k` stops at the first quote. */
  lemma {:induction false} SkipToQuoteStops(s: string, k: nat, j: nat)
    requires k <= j < |s| && s[j] == '\''
    requires forall x :: k <= x < j ==> s[x] != '\''
    ensures SkipToQuote(s, k) == j
    decreases j - k
  {
    if k < j {
      SkipToQuoteStops(s, k + 1, j);
    }
  }

  /** The row the greedy scans from index `i` mark out, before the
      characters at its ends are checked. */
  function Scan(s: string, i: nat): Option<EnvRow>
  {
    if |s| < i + |Key| then None else ScanComma(s, i, SkipSpace(s, i + |Key|))
  }

  /** The scans after the key, with the first comma expected at `c1`. */
  function ScanComma(s: string, i: nat, c1: nat): Option<EnvRow>
    requires c1 <= |s|
  {
    if c1 == |s| then None else ScanValue(s, i, c1, SkipSpace(s, c1 + 1))
  }

  /** The scans after the first comma, with the opening quote expected at
      `o`. */
  function ScanValue(s: string, i: nat, c1: nat, o: nat): Option<EnvRow>
    requires o <= |s|
  {
    if o == |s| then None
    else
      var c := SkipToQuote(s, o + 1);
      if c == |s| then None else Some(EnvRow(i, c1, o, c, SkipSpace(s, c + 1)))
  }

  /** The greedy scans from the start of a match mark out that match. */
  lemma ScanFinds(s: string, m: EnvRow, allowEmpty: bool)
    requires Shape(s, m, allowEmpty)
    ensures Scan(s, m.start) == Some(m)
  {
    ScanKey(s, m.start, m.comma1);
    ScanComma1(s, m.start, m.comma1, m.open);
    ScanQuotes(s, m.start, m.comma1, m.open, m.close, m.comma2);
  }

  /** The scan after the key stops at the first comma, `c1`. */
  lemma ScanKey(s: string, i: nat, c1: nat)
    requires i + |Key| <= c1 < |s| && s[c1] == ','
    requires forall x :: i + |Key| <= x < c1 ==> IsSpace(s[x])
    ensures Scan(s, i) == ScanComma(s, i, c1)
  {
    SkipSpaceStops(s, i + |Key|, c1);
  }

  /** The scan after the first comma stops at the opening quote, `o`. */
  lemma ScanComma1(s: string, i: nat, c1: nat, o: nat)
    requires c1 < o < |s| && s[o] == '\''
    requires forall x :: c1 < x < o ==> IsSpace(s[x])
    ensures ScanComma(s, i, c1) == ScanValue(s, i, c1, o)
  {
    SkipSpaceStops(s, c1 + 1, o);
  }

  /** The scans of the value and of the space after it stop at the closing
      quote, `c`, and at the second comma, `c2`. */
  lemma ScanQuotes(s: string, i: nat, c1: nat, o: nat, c: nat, c2: nat)
    requires o < c < c2 < |s| && s[c] == '\'' && s[c2] == ','
    requires forall x :: o < x < c ==> s[x] != '\''
    requires forall x :: c < x < c2 ==> IsSpace(s[x])
    ensures ScanValue(s, i, c1, o) == Some(EnvRow(i, c1, o, c, c2))
  {
    SkipToQuoteStops(s, o + 1, c);
    SkipSpaceStops(s, c + 1, c2);
  }

  /** The pattern tried at index `i`: the match there, if any. */
  function RowAt(s: string, i: nat, allowEmpty: bool): (r: Option<EnvRow>)
    ensures r.Some? ==> r.value.start == i && Shape(s, r.value, allowEmpty)
    ensures forall m: EnvRow :: m.start == i && Shape(s, m, allowEmpty) ==> r == Some(m)
  {
    forall m: EnvRow | m.start == i && Shape(s, m, allowEmpty)
      ensures Scan(s, i) == Some(m)
    {
      ScanFinds(s, m, allowEmpty);
    }
    match Scan(s, i)
    case Some(m) => if Shape(s, m, allowEmpty) then Some(m) else None
    case None => None
  }

  /** A regular-expression search from index `k`: the leftmost match. */
  function FirstRow(s: string, k: nat, allowEmpty: bool): (r: Option<EnvRow>)
    requires k <= |s|
    ensures r.Some? ==> Shape(s, r.value, allowEmpty) && k <= r.value.start
    ensures r.Some? ==> forall m: EnvRow :: Shape(s, m, allowEmpty) && k <= m.start ==> r.value.start <= m.start
    ensures r.None? ==> forall m: EnvRow :: Shape(s, m, allowEmpty) ==> m.start < k
    decreases |s| - k
  {
    match RowAt(s, k, allowEmpty)
    case Some(m) => Some(m)
    case None => if k == |s| then None else FirstRow(s, k + 1, allowEmpty)
  }

  /** `re.findall` with the `[^']+` pattern from index `k`: the successive
      matches, each search resuming where the previous match ended. */
  function FindRows(s: string, k: nat): seq<EnvRow>
    requires k <= |s|
    decreases |s| - k
  {
    if k == |s| then []
    else
      match RowAt(s, k, false)
      case Some(m) => [m] + FindRows(s, m.End())
      case None => FindRows(s, k + 1)
  }

  /** Every row of `rows` is a match of the `[^']+` pattern. */
  predicate AllMatch(s: string, rows: seq<EnvRow>)
    decreases |rows|
  {
    |rows| == 0 || (Shape(s, rows[0], false) && AllMatch(s, rows[1..]))
  }

  /** Every row that `re.findall` returns is a match. */
  lemma {:induction false} FindRowsAreMatches(s: string, k: nat)
    requires k <= |s|
    ensures AllMatch(s, FindRows(s, k))
    decreases |s| - k
  {
    if k < |s| {
      match RowAt(s, k, false)
      case Some(m) =>
        FindRowsCons(s, k, m);
        FindRowsAreMatches(s, m.End());
        assert ([m] + FindRows(s, m.End()))[1..] == FindRows(s, m.End());
      case None =>
        FindRowsStep(s, k);
        FindRowsAreMatches(s, k + 1);
    }
  }

  /** `re.findall` keeps a match found at `k` and resumes after it. */
  lemma FindRowsCons(t: string, k: nat, m: EnvRow)
    requires k < |t| && RowAt(t, k, false) == Some(m)
    ensures FindRows(t, k) == [m] + FindRows(t, m.End())
  {
  }

  datatype Option<T> = None | Some(value: T)

  /** A match with a non-empty value is a match of the rewrite's pattern
      too; one with an empty value is invisible to the check. */
  lemma CheckSeesOnlyNonEmptyValues(s: string, m: EnvRow)
    requires Shape(s, m, true)
    ensures Shape(s, m, false) <==> Value(s, m) != []
    ensures Value(s, m) == [] ==> RowAt(s, m.start, false).None?
  {
  }

  /** At a given index each pattern matches in at most one way. */
  lemma ShapeUnique(s: string, m: EnvRow, n: EnvRow, allowEmpty: bool)
    requires Shape(s, m, allowEmpty) && Shape(s, n, allowEmpty) && m.start == n.start
    ensures m == n
  {
    var r := RowAt(s, m.start, allowEmpty);
    assert r == Some(m) && r == Some(n);
  }

  /** Whether `m` matches depends only on the characters it spans: a copy of
      them, at any offset `d` in any text, matches as well. */
  lemma ShapeMoves(s: string, m: EnvRow, t: string, d: int, allowEmpty: bool)
    requires Shape(s, m, allowEmpty)
    requires 0 <= m.start + d && m.End() + d <= |t|
    requires forall k :: m.start <= k < m.End() ==> t[k + d] == s[k]
    ensures Shape(t, Moved(m, d), allowEmpty)
  {
    FrontMoves(s, m, t, d, allowEmpty);
    BackMoves(s, m, t, d, allowEmpty);
  }

  /** The key, the first comma and the opening quote of a copied match. */
  lemma FrontMoves(s: string, m: EnvRow, t: string, d: int, allowEmpty: bool)
    requires Shape(s, m, allowEmpty)
    requires 0 <= m.start + d && m.End() + d <= |t|
    requires forall k :: m.start <= k < m.End() ==> t[k + d] == s[k]
    ensures t[m.start + d..m.start + d + |Key|] == Key
    ensures forall k :: m.start + d + |Key| <= k < m.comma1 + d ==> IsSpace(t[k])
    ensures t[m.comma1 + d] == ','
    ensures forall k :: m.comma1 + d < k < m.open + d ==> IsSpace(t[k])
    ensures t[m.open + d] == '\''
  {
    KeyMoves(s, t, m.start, d, m.start + d);
    SpacesMove(s, t, m.start + |Key|, m.comma1, d, m.start + d + |Key|, m.comma1 + d);
    SpacesMove(s, t, m.comma1 + 1, m.open, d, m.comma1 + d + 1, m.open + d);
    assert t[m.comma1 + d] == s[m.comma1];
    assert t[m.open + d] == s[m.open];
  }

  /** The value, the closing quote and the second comma of a copied match. */
  lemma BackMoves(s: string, m: EnvRow, t: string, d: int, allowEmpty: bool)
    requires Shape(s, m, allowEmpty)
    requires 0 <= m.start + d && m.End() + d <= |t|
    requires forall k :: m.start <= k < m.End() ==> t[k + d] == s[k]
    ensures forall k :: m.open + d < k < m.close + d ==> t[k] != '\''
    ensures t[m.close + d] == '\''
    ensures forall k :: m.close + d < k < m.comma2 + d ==> IsSpace(t[k])
    ensures t[m.comma2 + d] == ','
  {
    NoQuotesMove(s, t, m.open + 1, m.close, d, m.open + d + 1, m.close + d);
    SpacesMove(s, t, m.close + 1, m.comma2, d, m.close + d + 1, m.comma2 + d);
    assert t[m.close + d] == s[m.close];
    assert t[m.comma2 + d] == s[m.comma2];
  }

  /** The key copied at offset `d` is the key there. */
  lemma KeyMoves(s: string, t: string, a: nat, d: int, b: int)
    requires a + |Key| <= |s| && b == a + d && 0 <= b && b + |Key| <= |t|
    requires s[a..a + |Key|] == Key
    requires forall k :: a <= k < a + |Key| ==> t[k + d] == s[k]
    ensures t[b..b + |Key|] == Key
  {
    SliceMoves(s, t, a, d, |Key|);
  }

  /** White space copied at offset `d` is white space there. */
  lemma SpacesMove(s: string, t: string, lo: nat, hi: nat, d: int, tlo: int, thi: int)
    requires lo <= hi <= |s| && tlo == lo + d && thi == hi + d && 0 <= tlo && thi <= |t|
    requires forall k :: lo <= k < hi ==> IsSpace(s[k])
    requires forall k :: lo <= k < hi ==> t[k + d] == s[k]
    ensures forall k :: tlo <= k < thi ==> IsSpace(t[k])
  {
    forall k | tlo <= k < thi ensures IsSpace(t[k]) {
      assert t[(k - d) + d] == s[k - d];
    }
  }

  /** Characters other than a quote copied at offset `d` are still not
      quotes there. */
  lemma NoQuotesMove(s: string, t: string, lo: nat, hi: nat, d: int, tlo: int, thi: int)
    requires lo <= hi <= |s| && tlo == lo + d && thi == hi + d && 0 <= tlo && thi <= |t|
    requires forall k :: lo <= k < hi ==> s[k] != '\''
    requires forall k :: lo <= k < hi ==> t[k + d] == s[k]
    ensures forall k :: tlo <= k < thi ==> t[k] != '\''
  {
    forall k | tlo <= k < thi ensures t[k] != '\'' {
      assert t[(k - d) + d] == s[k - d];
    }
  }

  /** A run of characters copied at offset `d` is the same slice there. */
  lemma SliceMoves(s: string, t: string, a: nat, d: int, n: nat)
    requires a + n <= |s| && 0 <= a + d && a + d + n <= |t|
    requires forall k :: a <= k < a + n ==> t[k + d] == s[k]
    ensures t[a + d..a + d + n] == s[a..a + n]
  {
    var u := s[a..a + n];
    forall x | 0 <= x < n ensures t[a + d..a + d + n][x] == u[x] {
      assert t[(a + x) + d] == s[a + x];
    }
  }

  /** `m` shifted by `d` characters. */
  function Moved(m: EnvRow, d: int): EnvRow
    requires 0 <= m.start + d
    requires m.start <= m.comma1 <= m.open <= m.close <= m.comma2
  {
    EnvRow(m.start + d, m.comma1 + d, m.open + d, m.close + d, m.comma2 + d)
  }

  /** `pattern.subn(r"\1'dev'\2", s, count=1)` at the match `m`: group 1
      runs from the key to the opening quote, group 2 from after the closing
      quote to the end of the match. */
  function Substitute(s: string, m: EnvRow): string
    requires Shape(s, m, true)
  {
    s[..m.start] + s[m.start..m.open] + DevValue + s[m.close + 1..m.End()] + s[m.End()..]
  }

  /** The match that the substituted text holds where `m` was. */
  function DevRow(m: EnvRow): EnvRow
    requires m.open < m.close < m.comma2
  {
    EnvRow(m.start, m.comma1, m.open, m.open + 4, m.comma2 - m.close + m.open + 4)
  }

  /** `r` is `s` with the quoted value of `m` replaced by `'dev'`, stated
      character by character. */
  predicate Replaced(s: string, m: EnvRow, r: string)
    requires m.open < m.close < |s|
  {
    && TailShifted(s, m, r)
    && (forall k {:trigger r[k]} :: 0 <= k < m.open ==> r[k] == s[k])
    && r[m.open..m.open + 5] == DevValue
  }

  /** After the written `'dev'`, `r` is the rest of `s` from its closing
      quote on. */
  predicate TailShifted(s: string, m: EnvRow, r: string)
    requires m.open < m.close < |s|
  {
    && |r| == |s| + m.open + 4 - m.close
    && (forall k :: m.open + 5 <= k < |r| ==> r[k] == s[k - (m.open + 4 - m.close)])
  }

  /** The substitution replaces the quoted value of `m` by `'dev'` and
      nothing else: the text before the opening quote and after the closing
      quote is kept, and the row now matches both patterns with value `dev`. */
  lemma SubstituteReplacesValue(s: string, m: EnvRow)
    requires Shape(s, m, true)
    ensures Substitute(s, m) == s[..m.open] + DevValue + s[m.close + 1..]
    ensures Replaced(s, m, Substitute(s, m))
    ensures Shape(Substitute(s, m), DevRow(m), false)
    ensures Value(Substitute(s, m), DevRow(m)) == "dev"
  {
    var o, c := m.open, m.close;
    assert s[..m.start] + s[m.start..o] == s[..o];
    assert s[c + 1..m.End()] + s[m.End()..] == s[c + 1..];
    var r := s[..o] + DevValue + s[c + 1..];
    assert Substitute(s, m) == r;
    ConcatIsReplaced(s, m);
    DevRowMatches(s, m, r);
  }

  lemma ConcatIsReplaced(s: string, m: EnvRow)
    requires m.open < m.close < |s|
    ensures Replaced(s, m, s[..m.open] + DevValue + s[m.close + 1..])
  {
    var o, c := m.open, m.close;
    var r := s[..o] + DevValue + s[c + 1..];
    assert r[o..o + 5] == DevValue;
    forall k | o + 5 <= k < |r| ensures r[k] == s[k - (o + 4 - c)] {
      assert r[k] == s[c + 1..][k - (o + 5)];
    }
  }

  /** The characters of the written value and those beside it. */
  lemma DevChars(s: string, m: EnvRow, r: string)
    requires Shape(s, m, true) && Replaced(s, m, r)
    ensures m.open + 5 < |r|
    ensures r[m.open] == '\'' && r[m.open + 1] == 'd' && r[m.open + 2] == 'e'
    ensures r[m.open + 3] == 'v' && r[m.open + 4] == '\''
    ensures IsSpace(r[m.open - 1]) || r[m.open - 1] == ','
    ensures IsSpace(r[m.open + 5]) || r[m.open + 5] == ','
  {
    var o := m.open;
    DevValueChars(r, o);
    assert r[o - 1] == s[o - 1];
    if m.comma1 < o - 1 {
      assert IsSpace(s[o - 1]);
    }
    assert r[o + 5] == s[m.close + 1];
    if m.close + 1 < m.comma2 {
      assert IsSpace(s[m.close + 1]);
    }
  }

  /** The five characters of `'dev'`. */
  lemma DevValueChars(r: string, o: nat)
    requires o + 5 <= |r| && r[o..o + 5] == DevValue
    ensures r[o] == '\'' && r[o + 1] == 'd' && r[o + 2] == 'e'
    ensures r[o + 3] == 'v' && r[o + 4] == '\''
  {
    assert r[o] == r[o..o + 5][0];
    assert r[o + 1] == r[o..o + 5][1];
    assert r[o + 2] == r[o..o + 5][2];
    assert r[o + 3] == r[o..o + 5][3];
    assert r[o + 4] == r[o..o + 5][4];
  }

  /** The characters of an occurrence of the key that the proofs use. */
  lemma KeyChars(t: string, j: nat)
    requires OccursAt(t, Key, j)
    ensures t[j] == '\'' && t[j + 1] == 'c' && t[j + |Key| - 2] == 's' && t[j + |Key| - 1] == '\''
    ensures forall k :: j < k < j + |Key| - 1 ==> t[k] != '\''
  {
    assert forall x {:trigger t[j..j + |Key|][x]} :: 0 <= x < |Key| ==> t[j + x] == t[j..j + |Key|][x];
    assert forall x :: 0 < x < |Key| - 1 ==> Key[x] == KeyName[x - 1];
    assert t[j + 1] == Key[1];
    assert t[j + |Key| - 2] == Key[|Key| - 2];
    forall k | j < k < j + |Key| - 1 ensures t[k] != '\'' {
      assert t[k] == Key[k - j] == KeyName[k - j - 1];
    }
  }

  lemma DevRowMatches(s: string, m: EnvRow, r: string)
    requires Shape(s, m, true) && Replaced(s, m, r)
    ensures Shape(r, DevRow(m), false)
    ensures Value(r, DevRow(m)) == "dev"
  {
    DevChars(s, m, r);
    DevRowHead(s, m, r);
    DevRowTail(s, m, r);
    DevRowFromParts(r, m);
  }

  /** The parts of the `'dev'` row, read in the substituted text alone, make
      up a match with value `dev`. */
  lemma DevRowFromParts(r: string, m: EnvRow)
    requires m.start + |Key| <= m.comma1 < m.open < m.close < m.comma2
    requires m.open + 5 < |r| && DevRow(m).comma2 < |r|
    requires r[m.start..m.start + |Key|] == Key && r[m.comma1] == ','
    requires forall k :: m.start + |Key| <= k < m.comma1 ==> IsSpace(r[k])
    requires forall k :: m.comma1 < k < m.open ==> IsSpace(r[k])
    requires r[m.open] == '\'' && r[m.open + 1] == 'd' && r[m.open + 2] == 'e'
    requires r[m.open + 3] == 'v' && r[m.open + 4] == '\''
    requires r[DevRow(m).comma2] == ','
    requires forall k :: m.open + 4 < k < DevRow(m).comma2 ==> IsSpace(r[k])
    ensures Shape(r, DevRow(m), false)
    ensures Value(r, DevRow(m)) == "dev"
  {
    DevText(r, m.open);
  }

  /** The three characters after the opening quote spell `dev`. */
  lemma DevText(r: string, o: nat)
    requires o + 4 < |r|
    requires r[o + 1] == 'd' && r[o + 2] == 'e' && r[o + 3] == 'v'
    ensures r[o + 1..o + 4] == "dev"
  {
  }

  /** Before the value the substituted row is the original one. */
  lemma DevRowHead(s: string, m: EnvRow, r: string)
    requires Shape(s, m, true) && Replaced(s, m, r)
    ensures r[m.start..m.start + |Key|] == Key && r[m.comma1] == ','
    ensures forall k :: m.start + |Key| <= k < m.comma1 ==> IsSpace(r[k])
    ensures forall k :: m.comma1 < k < m.open ==> IsSpace(r[k])
  {
    assert r[m.start..m.start + |Key|] == s[m.start..m.start + |Key|];
  }

  /** After the value the substituted row is the original one, shifted. */
  lemma DevRowTail(s: string, m: EnvRow, r: string)
    requires Shape(s, m, true) && Replaced(s, m, r)
    ensures DevRow(m).comma2 < |r| && r[DevRow(m).comma2] == ','
    ensures forall k :: m.open + 4 < k < DevRow(m).comma2 ==> IsSpace(r[k])
  {
    var n := DevRow(m);
    assert r[n.comma2] == s[m.comma2];
    forall k | n.close < k < n.comma2 ensures IsSpace(r[k]) {
      assert r[k] == s[k - (m.open + 4 - m.close)];
    }
  }

  /** The key cannot straddle the written `'dev'`: an occurrence of it in the
      substituted text lies wholly before the value or wholly after it. */
  lemma KeyAvoidsValue(s: string, m: EnvRow, r: string, j: nat)
    requires Shape(s, m, true) && Replaced(s, m, r)
    ensures OccursAt(r, Key, j) ==> j + |Key| <= m.open || m.open + 5 <= j
  {
    DevChars(s, m, r);
    if OccursAt(r, Key, j) {
      KeyChars(r, j);
    }
  }

  /** Two texts that agree character by character on `[a, b)` agree there
      as slices. */
  lemma SliceAgree(s: string, r: string, a: nat, b: nat)
    requires a <= b <= |s| && b <= |r|
    requires forall k :: a <= k < b ==> r[k] == s[k]
    ensures r[a..b] == s[a..b]
  {
  }

  /** A match in the substituted text that lies before the value is a match
      of the original text. */
  lemma MatchBeforeValue(s: string, m: EnvRow, r: string, n: EnvRow)
    requires m.open < m.close < |s| && Replaced(s, m, r)
    requires Shape(r, n, true)
    ensures n.End() <= m.open ==> Shape(s, n, true)
  {
    if n.End() <= m.open {
      ShapeMoves(r, n, s, 0, true);
      assert Moved(n, 0) == n;
    }
  }

  /** A match whose value region contains a quote followed by `d` opens its
      value at that quote. */
  lemma OpensAtQuote(r: string, n: EnvRow, o: nat)
    requires Shape(r, n, true)
    requires n.start + |Key| <= o <= n.comma2 && o + 1 < |r|
    requires r[o] == '\'' && r[o + 1] == 'd'
    ensures n.open == o
  {
    assert o == n.close ==> n.close < o + 1 <= n.comma2;
  }

  /** A value that opens with `'dev'` closes after `dev`. */
  lemma ClosesAfterDev(r: string, n: EnvRow)
    requires Shape(r, n, true) && n.open + 4 < |r|
    requires r[n.open + 1] == 'd' && r[n.open + 2] == 'e' && r[n.open + 3] == 'v'
    requires r[n.open + 4] == '\''
    ensures n.close == n.open + 4
  {
  }

  /** `\s*,` after a given index ends at one comma. */
  lemma CommaAfter(r: string, a: nat, b: nat, c: nat)
    requires a < b < |r| && a < c < |r|
    requires forall k :: a < k < b ==> IsSpace(r[k])
    requires forall k :: a < k < c ==> IsSpace(r[k])
    requires r[b] == ',' && r[c] == ','
    ensures b == c
  {
  }

  /** A match in the substituted text whose key lies before the value and
      that reaches into it must have `'dev'` as its value; the same key, read
      in the original text, then matches with `m`'s value. */
  lemma MatchAcrossValue(s: string, m: EnvRow, r: string, n: EnvRow)
    requires Shape(s, m, true) && Replaced(s, m, r)
    requires Shape(r, n, true)
    ensures n.start + |Key| <= m.open < n.End() ==> n.open == m.open && n.close == m.open + 4
    ensures n.start + |Key| <= m.open < n.End() ==>
      Shape(s, EnvRow(n.start, n.comma1, m.open, m.close, m.comma2), true)
  {
    var o := m.open;
    if n.start + |Key| <= o < n.End() {
      DevChars(s, m, r);
      OpensAtQuote(r, n, o);
      ClosesAfterDev(r, n);
      var dev := DevRow(m);
      DevRowMatches(s, m, r);
      CommaAfter(r, o + 4, n.comma2, dev.comma2);
      AcrossRowInOriginal(s, m, r, n);
    }
  }

  /** The key, white space and comma of such a match come before the value,
      where the two texts agree; followed by `m`'s value they match in the
      original text. */
  lemma AcrossRowInOriginal(s: string, m: EnvRow, r: string, n: EnvRow)
    requires Shape(s, m, true) && Replaced(s, m, r)
    requires Shape(r, n, true) && n.open == m.open
    ensures Shape(s, EnvRow(n.start, n.comma1, m.open, m.close, m.comma2), true)
  {
    var x := EnvRow(n.start, n.comma1, m.open, m.close, m.comma2);
    SliceAgree(s, r, n.start, n.start + |Key|);
    forall k | n.start + |Key| <= k < n.open ensures s[k] == r[k] {
    }
  }

  /** The part of `r` after the value is `s` shifted by the change in length. */
  lemma ReplacedTail(s: string, m: EnvRow, r: string, a: nat, b: nat, d: int)
    requires m.open < m.close < |s| && TailShifted(s, m, r)
    requires m.open + 5 <= a <= b <= |r| && d == m.close - m.open - 4
    ensures b + d <= |s|
    ensures forall k :: a <= k < b ==> s[k + d] == r[k]
  {
    forall k | a <= k < b ensures s[k + d] == r[k] {
      assert r[k] == s[k - (m.open + 4 - m.close)];
    }
  }

  /** A match in the substituted text that starts after the value is a match
      of the original text, shifted back by the change in length. */
  lemma MatchAfterValue(s: string, m: EnvRow, r: string, n: EnvRow)
    requires m.open < m.close < |s| && TailShifted(s, m, r)
    requires Shape(r, n, true) && m.open + 5 <= n.start
    ensures Shape(s, Moved(n, m.close - m.open - 4), true)
  {
    var d := m.close - m.open - 4;
    ReplacedTail(s, m, r, n.start, n.End(), d);
    ShiftedMatch(s, r, n, d);
  }

  /** A match of `r` whose characters `s` holds `d` places later is a match
      of `s` there. */
  lemma ShiftedMatch(s: string, r: string, n: EnvRow, d: int)
    requires Shape(r, n, true) && 0 <= n.start + d && n.End() + d <= |s|
    requires forall k :: n.start <= k < n.End() ==> s[k + d] == r[k]
    ensures Shape(s, Moved(n, d), true)
  {
    ShapeMoves(r, n, s, d, true);
  }

  /** When `m` is the only match of the rewrite's pattern in `s`, the row
      holding `'dev'` is the only match in the substituted text. */
  lemma SubstituteLeavesOneRow(s: string, m: EnvRow, n: EnvRow)
    requires Shape(s, m, true)
    requires forall x: EnvRow :: Shape(s, x, true) ==> x.start == m.start
    requires Shape(Substitute(s, m), n, true)
    ensures n == DevRow(m)
  {
    var r := Substitute(s, m);
    SubstituteReplacesValue(s, m);
    ReplacedRowStart(s, m, r, n);
    ShapeUnique(r, n, DevRow(m), true);
  }

  /** Every match in the replaced text starts where `m` does, when `m` is
      the only match in the original: it is a match of the original read
      before the value, across it, or shifted after it. */
  lemma ReplacedRowStart(s: string, m: EnvRow, r: string, n: EnvRow)
    requires Shape(s, m, true) && Replaced(s, m, r)
    requires forall x: EnvRow :: Shape(s, x, true) ==> x.start == m.start
    requires Shape(r, n, true)
    ensures n.start == m.start
  {
    KeyAvoidsValue(s, m, r, n.start);
    StartIfBefore(s, m, r, n);
    StartIfAcross(s, m, r, n);
    StartIfAfter(s, m, r, n);
  }

  /** A match lying before the value starts where `m` does. */
  lemma StartIfBefore(s: string, m: EnvRow, r: string, n: EnvRow)
    requires m.open < m.close < |s| && Replaced(s, m, r)
    requires forall x: EnvRow :: Shape(s, x, true) ==> x.start == m.start
    requires Shape(r, n, true)
    ensures n.End() <= m.open ==> n.start == m.start
  {
    MatchBeforeValue(s, m, r, n);
  }

  /** A match reaching across the value starts where `m` does. */
  lemma StartIfAcross(s: string, m: EnvRow, r: string, n: EnvRow)
    requires Shape(s, m, true) && Replaced(s, m, r)
    requires forall x: EnvRow :: Shape(s, x, true) ==> x.start == m.start
    requires Shape(r, n, true)
    ensures n.start + |Key| <= m.open < n.End() ==> n.start == m.start
  {
    MatchAcrossValue(s, m, r, n);
  }

  /** A match starting after the value starts, once shifted back, where `m`
      does. */
  lemma StartIfAfter(s: string, m: EnvRow, r: string, n: EnvRow)
    requires m.open < m.close < |s| && TailShifted(s, m, r)
    requires forall x: EnvRow :: Shape(s, x, true) ==> x.start == m.start
    requires Shape(r, n, true)
    ensures m.open + 5 <= n.start ==> n.start + (m.close - m.open - 4) == m.start
  {
    if m.open + 5 <= n.start {
      MatchAfterValue(s, m, r, n);
    }
  }

  /** One step of `re.findall` past an index where the pattern fails. */
  lemma FindRowsStep(t: string, k: nat)
    requires k < |t| && RowAt(t, k, false).None?
    ensures FindRows(t, k) == FindRows(t, k + 1)
  {
  }

  /** `re.findall` is the regular-expression search repeated from the end
      of each match found: its first row is the leftmost match from `k`. */
  lemma {:induction false} FindRowsSearches(t: string, k: nat)
    requires k <= |t|
    ensures FirstRow(t, k, false).None? ==> FindRows(t, k) == []
    ensures FirstRow(t, k, false).Some? ==>
      FindRows(t, k) == [FirstRow(t, k, false).value] + FindRows(t, FirstRow(t, k, false).value.End())
    decreases |t| - k
  {
    if k == |t| {
      assert RowAt(t, k, false).None?;
    } else {
      match RowAt(t, k, false)
      case Some(m) =>
        FindRowsCons(t, k, m);
      case None =>
        FindRowsStep(t, k);
        FindRowsSearches(t, k + 1);
    }
  }

  /** `re.findall` from `k` is empty exactly when no match starts at or
      after `k`. */
  lemma FindRowsEmptyIff(t: string, k: nat)
    requires k <= |t|
    ensures FindRows(t, k) == [] <==> forall y: EnvRow :: Shape(t, y, false) ==> y.start < k
  {
    FindRowsSearches(t, k);
  }

  /** No match of the check pattern starts inside a match whose value is
      `dev`: the only quotes inside it are the key's closing quote and the
      value's quotes, and none of them can open a key. */
  lemma NoRowInsideDevRow(s: string, x: EnvRow, n: EnvRow)
    requires Shape(s, x, false) && Value(s, x) == "dev"
    requires Shape(s, n, false)
    ensures !(x.start < n.start < x.End())
  {
    NoKeyInsideDevRow(s, x, n.start);
  }

  /** No occurrence of the key starts strictly inside a match whose value
      is `dev`. */
  lemma NoKeyInsideDevRow(s: string, x: EnvRow, i: nat)
    requires Shape(s, x, false) && Value(s, x) == "dev"
    requires OccursAt(s, Key, i)
    ensures !(x.start < i < x.End())
  {
    DevRowQuotes(s, x, i);
    KeyChars(s, i);
  }

  /** The quotes inside a match whose value is `dev`, after its first
      character, and the characters after the key and after the value. */
  lemma DevRowQuotes(s: string, x: EnvRow, i: nat)
    requires Shape(s, x, false) && Value(s, x) == "dev"
    ensures x.close == x.open + 4
    ensures x.start < i < x.End() && i < |s| && s[i] == '\'' ==>
      i == x.start + |Key| - 1 || i == x.open || i == x.close
    ensures s[x.start + |Key|] != 'c' && s[x.close + 1] != 'c'
  {
    assert |Value(s, x)| == 3;
    KeyChars(s, x.start);
  }

  /** `re.findall` finds nothing from `k` on when no match starts there. */
  lemma FindRowsNone(t: string, k: nat)
    requires k <= |t|
    requires forall y: EnvRow :: Shape(t, y, false) ==> y.start < k
    ensures FindRows(t, k) == []
  {
    FindRowsEmptyIff(t, k);
  }

  /** `re.findall` returns exactly the one match the text holds. */
  lemma FindRowsOnly(t: string, k: nat, x: EnvRow)
    requires Shape(t, x, false) && k <= x.start
    requires forall y: EnvRow :: Shape(t, y, false) ==> y.start == x.start
    ensures FindRows(t, k) == [x]
  {
    FindRowsSearches(t, k);
    var y := FirstRow(t, k, false).value;
    ShapeUnique(t, x, y, false);
    FindRowsNone(t, x.End());
  }
}
