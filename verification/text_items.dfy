/** How the text typed into the node and edge entries becomes a list of items:
    the text is cut at every comma, each piece is stripped of surrounding
    whitespace, blank pieces are dropped, and an edge item is cut at its first
    dash into its two endpoint names. */
module TextItems {
  import opened Wrappers

  /** Python's `str.isspace` for one character: the ASCII whitespace and
      separator controls and the Unicode space separators. */
  predicate IsSpace(c: char) {
    || c == ' ' || '\t' <= c <= '\r' || '\U{1C}' <= c <= '\U{1F}'
    || c == '\U{85}' || c == '\U{A0}' || c == '\U{1680}'
    || '\U{2000}' <= c <= '\U{200A}' || c == '\U{2028}' || c == '\U{2029}'
    || c == '\U{202F}' || c == '\U{205F}' || c == '\U{3000}'
  }

  /** `s.lstrip()`: the longest suffix of `s` that does not start with
      whitespace; everything cut off is whitespace. */
  function TrimLeft(s: string): (r: string)
    ensures |r| <= |s| && r == s[|s| - |r|..]
    ensures r == [] || !IsSpace(r[0])
  {
    if s != [] && IsSpace(s[0]) then TrimLeft(s[1..]) else s
  }

  /** Every character of `t` is whitespace. */
  ghost predicate AllSpace(t: string) {
    forall k :: 0 <= k < |t| ==> IsSpace(t[k])
  }

  /** Everything `lstrip` cuts off is whitespace. */
  lemma {:induction false} TrimLeftCuts(s: string)
    ensures AllSpace(s[..|s| - |TrimLeft(s)|])
  {
    if s != [] && IsSpace(s[0]) {
      TrimLeftCuts(s[1..]);
      var n := |s| - |TrimLeft(s)|;
      forall k | 0 <= k < n ensures IsSpace(s[..n][k]) {
        if k > 0 {
          assert s[..n][k] == s[1..][..n - 1][k - 1];
        }
      }
    }
  }

  /** `s.rstrip()`: the longest prefix of `s` that does not end with
      whitespace; everything cut off is whitespace. */
  function TrimRight(s: string): (r: string)
    ensures |r| <= |s| && r == s[..|r|]
    ensures r == [] || !IsSpace(r[|r| - 1])
  {
    if s != [] && IsSpace(s[|s| - 1]) then TrimRight(s[..|s| - 1]) else s
  }

  /** Everything `rstrip` cuts off is whitespace. */
  lemma {:induction false} TrimRightCuts(s: string)
    ensures AllSpace(s[|TrimRight(s)|..])
  {
    if s != [] && IsSpace(s[|s| - 1]) {
      TrimRightCuts(s[..|s| - 1]);
      var n := |TrimRight(s)|;
      forall k | 0 <= k < |s| - n ensures IsSpace(s[n..][k]) {
        if k < |s| - 1 - n {
          assert s[n..][k] == s[..|s| - 1][n..][k];
        }
      }
    }
  }

  /** `r` is the stretch of `s` that starts at `i`, and all of `s` around it
      is whitespace. */
  ghost predicate Trimmed(s: string, i: int, r: string) {
    && 0 <= i <= |s| - |r| && r == s[i..i + |r|]
    && AllSpace(s[..i]) && AllSpace(s[i + |r|..])
  }

  /** `s.strip()`: `s` without its leading and trailing whitespace. */
  function Strip(s: string): (r: string)
    ensures r == [] || (!IsSpace(r[0]) && !IsSpace(r[|r| - 1]))
  {
    TrimRight(TrimLeft(s))
  }

  /** What `Strip` cuts off is whitespace, and what it keeps is one stretch
      of `s`. */
  lemma StripTrims(s: string)
    ensures exists i :: Trimmed(s, i, Strip(s))
  {
    var l := TrimLeft(s);
    var r := TrimRight(l);
    var i := |s| - |l|;
    TrimLeftCuts(s);
    TrimRightCuts(l);
    assert r == Strip(s);
    assert r == s[i..i + |r|];
    assert l[|r|..] == s[i + |r|..];
    assert Trimmed(s, i, r);
  }

  /** `Strip` keeps only characters of `s`. */
  lemma StripKeepsChars(s: string)
    ensures forall c :: c in Strip(s) ==> c in s
  {
    var l := TrimLeft(s);
    var r := TrimRight(l);
    var i := |s| - |l|;
    assert r == Strip(s);
    assert r == s[i..i + |r|];
    forall c | c in r ensures c in s {
      var j :| 0 <= j < |r| && r[j] == c;
      assert s[i + j] == c;
    }
  }

  /** The pieces joined back together with `sep` between them. */
  function Join(parts: seq<string>, sep: char): (s: string)
    requires |parts| > 0
  {
    if |parts| == 1 then parts[0] else parts[0] + [sep] + Join(parts[1..], sep)
  }

  /** `s.split(sep)` for a one-character separator: the pieces between the
      separators, one more piece than there are separators. */
  function Split(s: string, sep: char): (parts: seq<string>)
    ensures |parts| > 0
    ensures forall p :: p in parts ==> sep !in p
    ensures Join(parts, sep) == s
  {
    if s == [] then [[]]
    else
      var rest := Split(s[1..], sep);
      if s[0] == sep then
        assert ([[]] + rest)[1..] == rest;
        [[]] + rest
      else
        var parts := [[s[0]] + rest[0]] + rest[1..];
        assert parts[1..] == rest[1..];
        assert s == [s[0]] + s[1..];
        parts
  }

  /** The list comprehension over the pieces: strip each one and keep the
      non-blank results, in order. */
  function NonBlank(parts: seq<string>): (items: seq<string>)
    ensures |items| <= |parts|
    ensures forall it :: it in items <==> exists p :: p in parts && Strip(p) == it && it != []
  {
    if parts == [] then []
    else
      var p := Strip(parts[0]);
      var rest := NonBlank(parts[1..]);
      assert forall q :: q in parts <==> q == parts[0] || q in parts[1..];
      if p == [] then rest else [p] + rest
  }

  /** One piece gives its stripped text, or nothing when that is blank. */
  lemma NonBlankOne(x: string)
    ensures NonBlank([x]) == if Strip(x) == [] then [] else [Strip(x)]
  {
    assert [x][1..] == [];
  }

  /** The comprehension keeps the pieces' order and their repeats: the items
      of two runs of pieces are the items of the first run followed by those
      of the second. */
  lemma {:induction false} NonBlankConcat(p: seq<string>, q: seq<string>)
    ensures NonBlank(p + q) == NonBlank(p) + NonBlank(q)
  {
    if p == [] {
      assert p + q == q;
    } else {
      assert (p + q)[0] == p[0] && (p + q)[1..] == p[1..] + q;
      NonBlankConcat(p[1..], q);
    }
  }

  /** The items of an entry: `[x.strip() for x in text.split(',') if x.strip()]`. */
  function Items(text: string): (items: seq<string>) {
    NonBlank(Split(text, ','))
  }

  /** Each item is non-blank, holds no comma and has no whitespace at either
      end, and every piece between commas that is not blank gives an item. */
  lemma ItemsAreStrippedPieces(text: string)
    ensures forall it :: it in Items(text) ==>
              it != [] && ',' !in it && !IsSpace(it[0]) && !IsSpace(it[|it| - 1])
    ensures forall p :: p in Split(text, ',') && Strip(p) != [] ==> Strip(p) in Items(text)
  {
    forall p | p in Split(text, ',') {
      StripKeepsChars(p);
    }
  }

  /** `t.split(sep, 1)` when `sep` occurs in `t`: the text before the first
      `sep` and the text after it; `None` when there is no `sep`. */
  function SplitFirst(t: string, sep: char): (r: Option<(string, string)>)
    ensures r.None? <==> sep !in t
    ensures r.Some? ==> t == r.value.0 + [sep] + r.value.1 && sep !in r.value.0
  {
    if t == [] then None
    else if t[0] == sep then Some(([], t[1..]))
    else
      match SplitFirst(t[1..], sep)
      case None => None
      case Some((a, b)) =>
        assert t == [t[0]] + t[1..];
        Some(([t[0]] + a, b))
  }

  /** An edge item `u-v`: both halves of the first-dash split, stripped. `None`
      for an item without a dash. The first endpoint never holds a dash; the
      second may. */
  function ParseEdge(item: string): (r: Option<(string, string)>)
    ensures r.None? <==> '-' !in item
  {
    match SplitFirst(item, '-')
    case None => None
    case Some((a, b)) => Some((Strip(a), Strip(b)))
  }

  /** What `ParseEdge` returns are the stripped texts on either side of the
      item's first dash; so the first endpoint never holds a dash, while the
      second may. */
  lemma ParseEdgeHalves(item: string)
    requires '-' in item
    ensures exists a, b :: item == a + "-" + b && '-' !in a
                           && ParseEdge(item) == Some((Strip(a), Strip(b)))
    ensures '-' !in ParseEdge(item).value.0
  {
    var (a, b) := SplitFirst(item, '-').value;
    assert item == a + "-" + b && '-' !in a && ParseEdge(item) == Some((Strip(a), Strip(b)));
  }
}
