/** Keyword substitution: each of eight fixed keywords, in table order, is replaced
    everywhere by one tape-machine symbol, in place in the text buffer. */
module Keywords {
  import opened Base

  /** `w` occurs in `s` starting at index `j`. */
  predicate OccursAt(s: string, w: string, j: nat) {
    j + |w| <= |s| && s[j..j + |w|] == w
  }

  /** `w` occurs nowhere in `s`. */
  ghost predicate Absent(s: string, w: string) {
    forall j: nat :: !OccursAt(s, w, j)
  }

  /** The C library's `strstr` on the buffer from index `from`: the first index at
      or after `from` where `w` starts. */
  function Find(s: string, w: string, from: nat): (r: Option<nat>)
    requires |w| > 0
    ensures r.Some? ==> from <= r.value && OccursAt(s, w, r.value)
    ensures r.Some? ==> forall j :: from <= j < r.value ==> !OccursAt(s, w, j)
    ensures r.None? ==> forall j: nat :: from <= j ==> !OccursAt(s, w, j)
    decreases |s| - from
  {
    if from + |w| > |s| then None
    else if s[from..from + |w|] == w then Some(from)
    else Find(s, w, from + 1)
  }

  /** Replacement of every occurrence of `w` by `sym`, the occurrences taken left
      to right without overlap: the reference meaning of one table entry. */
  function Replaced(s: string, w: string, sym: char): string
    requires |w| > 0
    decreases |s|
  {
    if s == [] then []
    else if OccursAt(s, w, 0) then [sym] + Replaced(s[|w|..], w, sym)
    else [s[0]] + Replaced(s[1..], w, sym)
  }

  lemma OccursAtTail(s: string, w: string, j: nat)
    requires |s| > 0
    ensures OccursAt(s[1..], w, j) <==> OccursAt(s, w, j + 1)
  {
    if j + 1 + |w| <= |s| {
      assert s[1..][j..j + |w|] == s[j + 1..j + 1 + |w|];
    }
  }

  /** Text without an occurrence is left as it is. */
  lemma {:induction false} ReplacedNoMatch(s: string, w: string, sym: char)
    requires |w| > 0
    requires Absent(s, w)
    ensures Replaced(s, w, sym) == s
    decreases |s|
  {
    if s != [] {
      assert !OccursAt(s, w, 0);
      forall j: nat ensures !OccursAt(s[1..], w, j) {
        OccursAtTail(s, w, j);
      }
      ReplacedNoMatch(s[1..], w, sym);
    }
  }

  /** A keyword with a character the text lacks occurs nowhere in it. */
  lemma MissingCharAbsent(s: string, w: string, c: char)
    requires c in w && c !in s
    ensures Absent(s, w)
  {
    var i :| 0 <= i < |w| && w[i] == c;
    forall j: nat ensures !OccursAt(s, w, j) {
      if j + |w| <= |s| {
        assert s[j..j + |w|][i] == s[j + i] != c;
      }
    }
  }

  /** Text before the first occurrence is copied unchanged, the occurrence becomes
      `sym`, and replacement goes on after it. */
  lemma Reassociate<T>(a: seq<T>, b: seq<T>, c: seq<T>, d: seq<T>)
    ensures a + (b + c + d) == (a + b) + c + d
  {
  }

  lemma HeadSlices(s: string, p: nat, q: nat)
    requires 0 < p <= q <= |s|
    ensures s[..p] == [s[0]] + s[1..][..p - 1]
    ensures s[1..][q - 1..] == s[q..]
  {
  }

  lemma {:induction false} ReplacedFirst(s: string, w: string, sym: char, p: nat)
    requires |w| > 0
    requires OccursAt(s, w, p)
    requires forall j :: 0 <= j < p ==> !OccursAt(s, w, j)
    ensures Replaced(s, w, sym) == s[..p] + [sym] + Replaced(s[p + |w|..], w, sym)
    decreases p
  {
    if p == 0 {
      assert s[..0] == [];
    } else {
      var t := s[1..];
      assert !OccursAt(s, w, 0);
      OccursAtTail(s, w, p - 1);
      forall j | 0 <= j < p - 1 ensures !OccursAt(t, w, j) {
        OccursAtTail(s, w, j);
      }
      ReplacedFirst(t, w, sym, p - 1);
      HeadSlices(s, p, p + |w|);
      var r := Replaced(s[p + |w|..], w, sym);
      assert Replaced(s, w, sym) == [s[0]] + (t[..p - 1] + [sym] + r);
      Reassociate([s[0]], t[..p - 1], [sym], r);
    }
  }

  /** Each replacement writes one symbol over at least two characters, so the
      text never grows, and it strictly shrinks when the keyword occurs. */
  lemma {:induction false} ReplacedShrinks(s: string, w: string, sym: char)
    requires |w| >= 2
    ensures |Replaced(s, w, sym)| <= |s|
    ensures !Absent(s, w) ==> |Replaced(s, w, sym)| < |s|
    decreases |s|
  {
    if s == [] {
    } else if OccursAt(s, w, 0) {
      ReplacedShrinks(s[|w|..], w, sym);
    } else {
      ReplacedShrinks(s[1..], w, sym);
      if !Absent(s, w) {
        var j: nat :| OccursAt(s, w, j);
        assert j > 0;
        OccursAtTail(s, w, j - 1);
      }
    }
  }

  /** If the first `m` characters of the result contain no `sym`, they were
      copied unchanged from the text. */
  lemma {:induction false} PrefixWithoutSymbol(s: string, w: string, sym: char, m: nat)
    requires |w| > 0
    requires m <= |Replaced(s, w, sym)|
    requires sym !in Replaced(s, w, sym)[..m]
    ensures m <= |s| && s[..m] == Replaced(s, w, sym)[..m]
    decreases m
  {
    if m > 0 {
      var r := Replaced(s, w, sym);
      assert r[0] in r[..m];
      assert !OccursAt(s, w, 0);
      assert r == [s[0]] + Replaced(s[1..], w, sym);
      assert Replaced(s[1..], w, sym)[..m - 1] == r[1..m];
      assert sym !in r[1..m] by {
        forall x | x in r[1..m] ensures x != sym {
          var i :| 0 <= i < m - 1 && r[1..m][i] == x;
          assert x == r[..m][i + 1];
        }
      }
      PrefixWithoutSymbol(s[1..], w, sym, m - 1);
      assert s[..m] == [s[0]] + s[1..][..m - 1];
      assert r[..m] == [r[0]] + r[1..m];
    }
  }

  /** Occurrences in `a + b` to the right of `a` are the occurrences in `b`. */
  lemma OccursAtAfter(a: string, b: string, v: string, j: nat)
    ensures OccursAt(a + b, v, |a| + j) <==> OccursAt(b, v, j)
  {
    if j + |v| <= |b| {
      assert (a + b)[|a| + j..|a| + j + |v|] == b[j..j + |v|];
    }
  }

  /** A suffix of a text without `v` is without `v`. */
  lemma AbsentSuffix(s: string, k: nat, v: string)
    requires k <= |s| && Absent(s, v)
    ensures Absent(s[k..], v)
  {
    assert s == s[..k] + s[k..];
    forall j: nat ensures !OccursAt(s[k..], v, j) {
      OccursAtAfter(s[..k], s[k..], v, j);
    }
  }

  /** The result starts with `v` only if the text does, when `v` does not contain `sym`. */
  lemma NoNewPrefix(s: string, w: string, sym: char, v: string)
    requires |w| > 0 && sym !in v
    requires !OccursAt(s, v, 0)
    ensures !OccursAt(Replaced(s, w, sym), v, 0)
  {
    var r := Replaced(s, w, sym);
    if |v| <= |r| {
      if sym !in r[..|v|] {
        PrefixWithoutSymbol(s, w, sym, |v|);
      } else {
        assert r[..|v|] != v;
      }
    }
  }

  /** A pass cannot create an occurrence of a word without its symbol: an occurrence
      would have to contain the symbol or be copied from the text. */
  lemma {:induction false} NoNewOccurrence(s: string, w: string, sym: char, v: string, j: nat)
    requires |w| > 0 && sym !in v
    requires Absent(s, v)
    ensures !OccursAt(Replaced(s, w, sym), v, j)
    decreases |s|
  {
    if j == 0 {
      NoNewPrefix(s, w, sym, v);
    } else if s != [] {
      var k := if OccursAt(s, w, 0) then |w| else 1;
      var head := if OccursAt(s, w, 0) then [sym] else [s[0]];
      AbsentSuffix(s, k, v);
      NoNewOccurrence(s[k..], w, sym, v, j - 1);
      OccursAtAfter(head, Replaced(s[k..], w, sym), v, j - 1);
    }
  }

  /** After the pass for a keyword that does not contain its own symbol, the keyword
      occurs nowhere: a match is taken wherever it starts, even inside a longer word. */
  lemma {:induction false} ReplacedRemovesAll(s: string, w: string, sym: char)
    requires |w| > 0 && sym !in w
    ensures Absent(Replaced(s, w, sym), w)
    decreases |s|
  {
    if s != [] {
      var r := Replaced(s, w, sym);
      var k := if OccursAt(s, w, 0) then |w| else 1;
      var head := if OccursAt(s, w, 0) then [sym] else [s[0]];
      assert r == head + Replaced(s[k..], w, sym);
      ReplacedRemovesAll(s[k..], w, sym);
      forall j: nat ensures !OccursAt(r, w, j) {
        if j == 0 {
          if OccursAt(s, w, 0) {
            assert j + |w| <= |r| ==> r[j..j + |w|][0] == sym;
          } else {
            NoNewPrefix(s, w, sym, w);
          }
        } else {
          OccursAtAfter(head, Replaced(s[k..], w, sym), w, j - 1);
        }
      }
    }
  }

  /** A later pass cannot bring back an earlier keyword, provided the later symbol
      is not a character of that keyword. */
  lemma ReplacedKeepsAbsent(s: string, w: string, sym: char, v: string)
    requires |w| > 0 && sym !in v
    requires Absent(s, v)
    ensures Absent(Replaced(s, w, sym), v)
  {
    forall j: nat ensures !OccursAt(Replaced(s, w, sym), v, j) {
      NoNewOccurrence(s, w, sym, v, j);
    }
  }

  /** A symbol that does not start the keyword is copied through. */
  lemma ReplacedSymbolHead(t: string, w: string, sym: char)
    requires |w| > 0 && sym !in w
    ensures Replaced([sym] + t, w, sym) == [sym] + Replaced(t, w, sym)
  {
    var u := [sym] + t;
    assert !OccursAt(u, w, 0) by {
      assert |w| <= |u| ==> u[..|w|][0] == sym;
    }
    assert u[1..] == t;
  }

  /** The first occurrence at or after `pos` in `text`, seen from `pos`. */
  lemma FirstFromPos(text: string, w: string, pos: nat, p: nat)
    requires |w| > 0 && pos <= p && OccursAt(text, w, p)
    requires forall j :: pos <= j < p ==> !OccursAt(text, w, j)
    ensures OccursAt(text[pos..], w, p - pos)
    ensures forall j :: 0 <= j < p - pos ==> !OccursAt(text[pos..], w, j)
  {
    assert text == text[..pos] + text[pos..];
    forall j: nat ensures OccursAt(text[pos..], w, j) <==> OccursAt(text, w, pos + j) {
      OccursAtAfter(text[..pos], text[pos..], w, j);
    }
  }

  /** One round of the `strstr` loop keeps the loop invariant: the text left of the
      match is final, and replacing from the match on completes the pass. */
  lemma ReplaceStep(original: string, text: string, w: string, sym: char, pos: nat, p: nat)
    requires |w| > 0 && sym !in w
    requires pos <= p && OccursAt(text, w, p)
    requires forall j :: pos <= j < p ==> !OccursAt(text, w, j)
    requires Replaced(original, w, sym) == text[..pos] + Replaced(text[pos..], w, sym)
    ensures var next := text[..p] + [sym] + text[p + |w|..];
      Replaced(original, w, sym) == next[..p] + Replaced(next[p..], w, sym)
  {
    var tail := text[p + |w|..];
    ReplacedFromPos(text, w, sym, pos, p);
    SpliceSlices(text, pos, p, |w|, sym);
    ReplacedSymbolHead(tail, w, sym);
    Reassociate(text[..pos], text[pos..p], [sym], Replaced(tail, w, sym));
    Associate(text[..p], [sym], Replaced(tail, w, sym));
  }

  /** `ReplacedFirst` for the text from `pos` on, in the coordinates of the whole text. */
  lemma ReplacedFromPos(text: string, w: string, sym: char, pos: nat, p: nat)
    requires |w| > 0 && pos <= p && OccursAt(text, w, p)
    requires forall j :: pos <= j < p ==> !OccursAt(text, w, j)
    ensures Replaced(text[pos..], w, sym) == text[pos..p] + [sym] + Replaced(text[p + |w|..], w, sym)
  {
    var rest, k := text[pos..], p - pos;
    FirstFromPos(text, w, pos, p);
    ReplacedFirst(rest, w, sym, k);
    SuffixSlices(text, pos, p, |w|);
    assert rest[k + |w|..] == text[p + |w|..];
    assert Replaced(rest[k + |w|..], w, sym) == Replaced(text[p + |w|..], w, sym);
  }

  lemma Associate<T>(a: seq<T>, b: seq<T>, c: seq<T>)
    ensures a + b + c == a + (b + c)
  {
  }

  /** Slices of a suffix are slices of the whole text. */
  lemma SuffixSlices(text: string, pos: nat, p: nat, n: nat)
    requires pos <= p && p + n <= |text|
    ensures text[pos..][..p - pos] == text[pos..p]
    ensures text[pos..][p - pos + n..] == text[p + n..]
  {
  }

  /** Slices of the buffer around one replacement. */
  lemma SpliceSlices(text: string, pos: nat, p: nat, n: nat, sym: char)
    requires pos <= p && p + n <= |text|
    ensures text[..pos] + text[pos..p] == text[..p]
    ensures var next := text[..p] + [sym] + text[p + n..];
      next[..p] == text[..p] && next[p..] == [sym] + text[p + n..]
  {
  }

  /** When `strstr` finds nothing from `pos` on, the pass is complete. */
  lemma ReplaceDone(text: string, w: string, sym: char, pos: nat)
    requires |w| > 0 && pos <= |text|
    requires forall j: nat :: pos <= j ==> !OccursAt(text, w, j)
    ensures text[..pos] + Replaced(text[pos..], w, sym) == text
  {
    var rest := text[pos..];
    assert text == text[..pos] + rest;
    forall j: nat ensures !OccursAt(rest, w, j) {
      OccursAtAfter(text[..pos], rest, w, j);
    }
    ReplacedNoMatch(rest, w, sym);
  }

  /** `memmove`: the characters `buf[from + gap..len]` move down by `gap` places. */
  method ShiftDown(buf: array<char>, from: nat, gap: nat, len: nat)
    requires from + gap <= len <= buf.Length
    modifies buf
    ensures buf[..len - gap] == old(buf[..from]) + old(buf[from + gap..len])
  {
    ghost var src := buf[..len];
    var k := from;
    while k < len - gap
      invariant from <= k <= len - gap
      invariant forall i :: 0 <= i < from ==> buf[i] == src[i]
      invariant forall i :: from <= i < k ==> buf[i] == src[i + gap]
      invariant forall i :: k <= i < len ==> buf[i] == src[i]
      decreases len - gap - k
    {
      buf[k] := buf[k + gap];
      k := k + 1;
    }
    ghost var moved := src[..from] + src[from + gap..len];
    assert |moved| == len - gap;
    forall i | 0 <= i < len - gap ensures buf[i] == moved[i] {
      if i >= from {
        assert moved[i] == src[from + gap..len][i - from];
      }
    }
    assert buf[..len - gap] == moved;
  }

  /** The body of one round: `memcpy` writes the symbol over the first character of
      the match at `p`, then `memmove` closes the gap left by the rest of the match. */
  method OverwriteMatch(buf: array<char>, len: nat, p: nat, w: string, sym: char) returns (newLen: nat)
    requires |w| >= 1 && p + |w| <= len <= buf.Length
    modifies buf
    ensures newLen == len - (|w| - 1)
    ensures buf[..newLen] == old(buf[..len])[..p] + [sym] + old(buf[..len])[p + |w|..]
  {
    ghost var text := buf[..len];
    buf[p] := sym;
    assert buf[..p + 1] == text[..p] + [sym];
    assert buf[p + |w|..len] == text[p + |w|..];
    ShiftDown(buf, p + 1, |w| - 1, len);
    newLen := len - (|w| - 1);
  }

  /** One table entry: the `strstr` loop over `buf[..len]`. Each match is
      overwritten by `sym` (`memcpy`), the rest of the text moves down (`memmove`),
      and the search resumes at the match position. */
  method ReplaceAll(buf: array<char>, len: nat, w: string, sym: char) returns (newLen: nat)
    requires len <= buf.Length
    requires |w| >= 2 && sym !in w
    modifies buf
    ensures newLen <= len
    ensures buf[..newLen] == Replaced(old(buf[..len]), w, sym)
  {
    newLen := len;
    var pos := 0;
    ghost var original := buf[..len];
    ghost var cur := original;
    while true
      invariant pos <= newLen <= len && cur == buf[..newLen]
      invariant Replaced(original, w, sym) == cur[..pos] + Replaced(cur[pos..], w, sym)
      decreases newLen
    {
      var found := Find(buf[..newLen], w, pos);
      if found.None? {
        ReplaceDone(cur, w, sym, pos);
        return;
      }
      var p := found.value;
      assert p + |w| <= newLen by {
        assert OccursAt(cur, w, p);
      }
      ghost var next := cur[..p] + [sym] + cur[p + |w|..];
      ReplaceStep(original, cur, w, sym, pos, p);
      newLen := OverwriteMatch(buf, newLen, p, w, sym);
      cur, pos := next, p;
    }
  }

  /** The replacement table, in the order in which the passes run. */
  const Table: seq<(string, char)> := [
    ("i ", '>'), ("use ", '<'), ("arch ", '+'), ("linux ", '-'),
    ("btw ", '.'), ("by ", ','), ("the ", '['), ("way ", ']')
  ]

  /** No keyword is shorter than two characters and no symbol occurs in a keyword. */
  lemma TableShape()
    ensures |Table| == 8
    ensures forall i :: 0 <= i < |Table| ==> |Table[i].0| >= 2
    ensures forall i, j :: 0 <= i < |Table| && 0 <= j < |Table| ==> Table[j].1 !in Table[i].0
  {
  }

  /** The text after the first `n` passes of the table. */
  function Substituted(s: string, n: nat): string
    requires n <= |Table|
  {
    if n == 0 then s
    else Replaced(Substituted(s, n - 1), Table[n - 1].0, Table[n - 1].1)
  }

  /** After the first `n` passes none of their keywords is left, and the text has not grown. */
  lemma {:induction false} SubstitutedClean(s: string, n: nat)
    requires n <= |Table|
    ensures forall i :: 0 <= i < n ==> Absent(Substituted(s, n), Table[i].0)
    ensures |Substituted(s, n)| <= |s|
  {
    TableShape();
    if n > 0 {
      SubstitutedClean(s, n - 1);
      var prev := Substituted(s, n - 1);
      var (w, sym) := Table[n - 1];
      ReplacedShrinks(prev, w, sym);
      ReplacedRemovesAll(prev, w, sym);
      forall i | 0 <= i < n - 1 ensures Absent(Substituted(s, n), Table[i].0) {
        ReplacedKeepsAbsent(prev, w, sym, Table[i].0);
      }
    }
  }

  /** The complete substitution pass over `buf[..len]`, in place. */
  method SubstituteAll(buf: array<char>, len: nat) returns (newLen: nat)
    requires len <= buf.Length
    modifies buf
    ensures newLen <= len
    ensures buf[..newLen] == Substituted(old(buf[..len]), |Table|)
  {
    TableShape();
    newLen := len;
    ghost var original := buf[..len];
    for i := 0 to |Table|
      invariant newLen <= len
      invariant buf[..newLen] == Substituted(original, i)
    {
      newLen := ReplaceAll(buf, newLen, Table[i].0, Table[i].1);
    }
  }

  /** Matching has no word boundaries: the `i ` at the end of `hi ` is a keyword. */
  lemma InsideWord()
    ensures Replaced("hi ", "i ", '>') == "h>"
  {
    assert "hi "[0..2] == "hi";
    assert !OccursAt("hi ", "i ", 0);
    assert "hi "[1..] == "i ";
    assert OccursAt("i ", "i ", 0);
    assert "i "[2..] == [];
  }
}
