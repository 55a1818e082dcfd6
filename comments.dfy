/** Removal of line comments: a `;` starts a comment that runs up to, but not
    including, the next newline. */
module Comments {

  /** Index of the first newline in `s`, or `|s|` when there is none. */
  function NewlineIndex(s: string): (r: nat)
    ensures r <= |s|
    ensures r < |s| ==> s[r] == '\n'
    ensures forall k :: 0 <= k < r ==> s[k] != '\n'
  {
    if s == [] then 0
    else if s[0] == '\n' then 0
    else 1 + NewlineIndex(s[1..])
  }

  /** Index of the first `c` in `s`, or `|s|` when there is none. */
  function IndexOf(s: string, c: char): (r: nat)
    ensures r <= |s|
    ensures r < |s| ==> s[r] == c
    ensures forall k :: 0 <= k < r ==> s[k] != c
  {
    if s == [] then 0
    else if s[0] == c then 0
    else 1 + IndexOf(s[1..], c)
  }

  /** The text with its comments removed, in the shape of the copy loop: an
      ordinary character is copied, a `;` makes the scan skip to the next newline. */
  function Strip(s: string): string
    decreases |s|
  {
    if s == [] then []
    else if s[0] == ';' then Strip(s[NewlineIndex(s)..])
    else [s[0]] + Strip(s[1..])
  }

  /** Stripping never lengthens the text and leaves no `;` behind. */
  lemma {:induction false} StripShrinks(s: string)
    ensures |Strip(s)| <= |s|
    ensures ';' !in Strip(s)
    decreases |s|
  {
    if s == [] {
    } else if s[0] == ';' {
      StripShrinks(s[NewlineIndex(s)..]);
    } else {
      StripShrinks(s[1..]);
    }
  }

  /** On a single line, stripping keeps exactly the text before the first `;`. */
  lemma {:induction false} StripLine(s: string)
    requires '\n' !in s
    ensures Strip(s) == s[..IndexOf(s, ';')]
    decreases |s|
  {
    if s == [] {
    } else if s[0] == ';' {
      assert NewlineIndex(s) == |s|;
      assert s[NewlineIndex(s)..] == [];
    } else {
      assert '\n' !in s[1..];
      StripLine(s[1..]);
      assert s[..IndexOf(s, ';')] == [s[0]] + s[1..][..IndexOf(s[1..], ';')];
    }
  }

  /** Text without a `;` has no comment and is kept as it is. */
  lemma {:induction false} StripNoComment(s: string)
    requires ';' !in s
    ensures Strip(s) == s
    decreases |s|
  {
    if s != [] {
      assert ';' !in s[1..];
      StripNoComment(s[1..]);
    }
  }

  /** A comment never reaches past the end of its line: the newline is kept and
      the lines on either side of it are stripped independently. */
  lemma {:induction false} StripLines(a: string, b: string)
    ensures Strip(a + "\n" + b) == Strip(a) + "\n" + Strip(b)
    decreases |a|
  {
    var s := a + "\n" + b;
    if a == [] {
      assert s == "\n" + b;
      assert s[1..] == b;
    } else if a[0] == ';' {
      var q := NewlineIndex(a);
      if q < |a| {
        assert NewlineIndex(s) == q by {
          assert forall k :: 0 <= k < q ==> s[k] == a[k];
          assert s[q] == a[q];
        }
        assert s[q..] == a[q..] + "\n" + b;
        StripLines(a[q..], b);
      } else {
        assert NewlineIndex(s) == |a| by {
          assert forall k :: 0 <= k < |a| ==> s[k] == a[k];
          assert s[|a|] == '\n';
        }
        assert s[|a|..] == "\n" + b;
        assert a[q..] == [];
        assert (s[|a|..])[1..] == b;
      }
    } else {
      assert s[1..] == a[1..] + "\n" + b;
      StripLines(a[1..], b);
    }
  }

  /** The source's copy loop: `src` walks the text, `dst` writes the kept
      characters into the caller's buffer `newCode`, which is as large as the text.
      The stripped text is `newCode[..length]`. */
  method StripComments(code: string, newCode: array<char>) returns (length: nat)
    requires |code| <= newCode.Length
    modifies newCode
    ensures length <= |code|
    ensures newCode[..length] == Strip(code)
  {
    var src, dst := 0, 0;
    StripShrinks(code);
    while src < |code|
      invariant 0 <= dst <= src <= |code|
      invariant newCode[..dst] + Strip(code[src..]) == Strip(code)
      decreases |code| - src
    {
      if code[src] == ';' {
        var start := src;
        while src < |code| && code[src] != '\n'
          invariant start <= src <= |code|
          invariant forall k :: start <= k < src ==> code[k] != '\n'
          decreases |code| - src
        {
          src := src + 1;
        }
        assert NewlineIndex(code[start..]) == src - start;
        assert code[start..][src - start..] == code[src..];
      } else {
        assert Strip(code[src..]) == [code[src]] + Strip(code[src + 1..]);
        newCode[dst] := code[src];
        assert newCode[..dst + 1] == newCode[..dst] + [code[src]];
        dst, src := dst + 1, src + 1;
      }
    }
    assert code[src..] == [];
    length := dst;
  }
}
