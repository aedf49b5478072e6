/**
  NUL-terminated strings in fixed buffers, and the string routines of the shell.
 */
module CStrings {
  import opened Machine
  import opened Commands
  import opened LineEditor

  /** The characters before the first NUL. */
  function CString(s: seq<u8>): (r: seq<u8>)
    ensures |r| <= |s| && forall i :: 0 <= i < |r| ==> r[i] == s[i] && r[i] != 0
    ensures |r| < |s| ==> s[|r|] == 0
  {
    if s == [] || s[0] == 0 then [] else [s[0]] + CString(s[1..])
  }

  ghost predicate Terminated(s: seq<u8>) {
    |CString(s)| < |s|
  }

  // A buffer holds `r` when `r` has no NUL and is followed by one.
  lemma {:induction false} CStringIs(s: seq<u8>, r: seq<u8>)
    requires |r| < |s| && s[|r|] == 0
    requires forall i :: 0 <= i < |r| ==> s[i] == r[i] && r[i] != 0
    ensures CString(s) == r && Terminated(s)
  {
    if r != [] {
      assert forall i :: 0 <= i < |r[1..]| ==> s[1..][i] == r[1..][i];
      CStringIs(s[1..], r[1..]);
    }
  }

  // Copies a string that fits, with its NUL; the rest of the destination stays.
  method StrCopy(dst: array<u8>, src: array<u8>)
    requires dst != src && Terminated(src[..]) && |CString(src[..])| < dst.Length
    modifies dst
    ensures CString(dst[..]) == CString(src[..]) && Terminated(dst[..])
    ensures forall j :: |CString(src[..])| < j < dst.Length ==> dst[j] == old(dst[j])
  {
    ghost var text := CString(src[..]);
    var i := 0;
    while src[i] != 0
      invariant 0 <= i <= |text|
      invariant forall j :: 0 <= j < i ==> dst[j] == text[j]
      invariant forall j :: i <= j < dst.Length ==> dst[j] == old(dst[j])
      decreases |text| - i
    {
      assert i < |text|;
      dst[i] := src[i];
      i := i + 1;
    }
    assert i == |text|;
    dst[i] := 0;
    CStringIs(dst[..], text);
  }

  method StrLen(s: array<u8>) returns (n: nat)
    requires Terminated(s[..])
    ensures n == |CString(s[..])|
  {
    ghost var text := CString(s[..]);
    n := 0;
    while s[n] != 0
      invariant 0 <= n <= |text|
      decreases |text| - n
    {
      assert n < |text|;
      n := n + 1;
    }
  }

  /** The character at `i` of a NUL-terminated string, its NUL included. */
  function CharAt(s: seq<u8>, i: nat): u8
    requires i <= |s|
  {
    if i < |s| then s[i] else 0
  }

  // Case-insensitive prefix test; it never reads behind the NUL of `str`.
  method StrStartsWith(str: seq<u8>, prefix: seq<u8>) returns (r: bool)
    requires 0 !in str && 0 !in prefix
    ensures r <==> Completes(str, prefix)
  {
    hide Upper, SameLetter;
    var i := 0;
    while i < |prefix|
      invariant 0 <= i <= |prefix| && i <= |str|
      invariant forall j :: 0 <= j < i ==> SameLetter(str[j], prefix[j])
    {
      var cs, cp := CharAt(str, i), prefix[i];
      UpperFolds(cs, cp);
      assert prefix[i] in prefix;
      NulIsNoLetter(cp);
      cs := Upper(cs);
      cp := Upper(cp);
      if cs != cp {
        if |prefix| <= |str| {
          assert str[..|prefix|][i] == str[i];
        }
        return false;
      }
      i := i + 1;
    }
    return true;
  }

  lemma NulIsNoLetter(c: u8)
    ensures SameLetter(0, c) <==> c == 0
  {
  }

  /** The value of a `char`, which is signed in the source. */
  function Signed(c: u8): (r: int)
    ensures -128 <= r < 128 && (r == c || r == c - 256)
  {
    if c < 128 then c else c - 256
  }

  /** At `k` both strings still agree up to letter case, and at `k` they differ or end. */
  ghost predicate FirstDifference(a: seq<u8>, b: seq<u8>, k: nat) {
    && k <= |a| && k <= |b| && SameText(a[..k], b[..k])
    && (k < |a| && k < |b| ==> !SameLetter(a[k], b[k]))
  }

  // Comparison that ignores letter case: zero exactly for equal strings, and otherwise the
  // signed difference of the first two characters that differ. Letters count in upper case,
  // unless the other string has ended.
  method StrCmp(a: seq<u8>, b: seq<u8>) returns (r: int)
    requires 0 !in a && 0 !in b
    ensures r == 0 <==> SameText(a, b)
    ensures exists k: nat :: FirstDifference(a, b, k) &&
              r == if k < |a| && k < |b| then Signed(Upper(a[k])) - Signed(Upper(b[k]))
                   else Signed(CharAt(a, k)) - Signed(CharAt(b, k))
  {
    hide Upper, SameLetter;
    var i := 0;
    while i < |a| && i < |b|
      invariant 0 <= i <= |a| && i <= |b|
      invariant forall j :: 0 <= j < i ==> SameLetter(a[j], b[j])
    {
      var ca, cb := Upper(a[i]), Upper(b[i]);
      UpperFolds(a[i], b[i]);
      if ca != cb {
        assert FirstDifference(a, b, i);
        return Signed(ca) - Signed(cb);
      }
      i := i + 1;
    }
    assert FirstDifference(a, b, i);
    if i < |a| {
      assert a[i] in a;
    }
    if i < |b| {
      assert b[i] in b;
    }
    return Signed(CharAt(a, i)) - Signed(CharAt(b, i));
  }

  // ---------- Splitting a command line at its pipe ----------

  function Spaces(n: nat): (s: seq<u8>)
    ensures |s| == n && forall i :: 0 <= i < n ==> s[i] == SPACE
  {
    seq(n, i => SPACE)
  }

  // The text before the first pipe, and the text behind it without leading spaces.
  method SplitAtPipe(line: seq<u8>) returns (found: bool, first: seq<u8>, second: seq<u8>)
    ensures found <==> PIPE in line
    ensures !found ==> first == line && second == []
    ensures found ==> first == Before(line) && second == After(line)
    ensures found ==> '|' as int !in first && line[|first|] == '|' as int
    ensures found ==> |first| + |second| < |line| && second == line[|line| - |second|..]
    ensures found ==> forall i :: |first| < i < |line| - |second| ==> line[i] == ' ' as int
    ensures found && second != [] ==> second[0] != ' ' as int
    ensures found ==> exists n: nat :: line == first + [PIPE] + Spaces(n) + second
  {
    hide Before, After;
    var pipePos := -1;
    var i := 0;
    while i < |line|
      invariant 0 <= i <= |line| && pipePos == -1
      invariant PIPE !in line[..i]
    {
      if line[i] == PIPE {
        pipePos := i;
        break;
      }
      i := i + 1;
    }
    if pipePos == -1 {
      assert line[..|line|] == line;
      return false, line, [];
    }
    first := line[..pipePos];
    i := pipePos + 1;
    while i < |line| && line[i] == SPACE
      invariant pipePos < i <= |line|
      invariant forall k :: pipePos < k < i ==> line[k] == SPACE
    {
      i := i + 1;
    }
    second := line[i..];
    found := true;
    SplitIs(line, pipePos, i);
    PartsOfLine(line, pipePos, i);
  }

  lemma SplitIs(line: seq<u8>, p: nat, q: nat)
    requires p < q <= |line| && PIPE !in line[..p] && line[p] == PIPE
    requires (forall k :: p < k < q ==> line[k] == SPACE) && (q < |line| ==> line[q] != SPACE)
    ensures PIPE in line && Before(line) == line[..p] && After(line) == line[q..]
  {
    hide Before, SkipSpaces;
    BeforeIs(line, p);
    assert line[p] in line;
    BehindPipe(line, p, q);
    SkipSpacesIs(line[p + 1..], q - p - 1);
  }

  lemma BehindPipe(line: seq<u8>, p: nat, q: nat)
    requires p < q <= |line| && forall k :: p < k < q ==> line[k] == SPACE
    ensures var rest, k := line[p + 1..], q - p - 1;
      && (forall i :: 0 <= i < k ==> rest[i] == SPACE) && (k < |rest| ==> rest[k] == line[q])
      && rest[k..] == line[q..]
  {
  }

  lemma PartsOfLine(line: seq<u8>, p: nat, q: nat)
    requires p < q <= |line| && line[p] == PIPE && forall k :: p < k < q ==> line[k] == SPACE
    ensures line == line[..p] + [PIPE] + Spaces(q - p - 1) + line[q..]
  {
    assert line[p + 1..q] == Spaces(q - p - 1);
    assert line == line[..p] + [PIPE] + line[p + 1..q] + line[q..];
  }

  lemma {:induction false} BeforeIs(line: seq<u8>, p: nat)
    requires p < |line| && PIPE !in line[..p] && line[p] == PIPE
    ensures Before(line) == line[..p]
  {
    if p > 0 {
      assert line[0] in line[..p];
      assert line[1..][..p - 1] == line[1..p];
      assert forall c :: c in line[1..p] ==> c in line[..p];
      BeforeIs(line[1..], p - 1);
      assert [line[0]] + line[1..p] == line[..p];
    }
  }

  lemma {:induction false} SkipSpacesIs(s: seq<u8>, k: nat)
    requires k <= |s| && (forall i :: 0 <= i < k ==> s[i] == SPACE) && (k < |s| ==> s[k] != SPACE)
    ensures SkipSpaces(s) == s[k..]
  {
    if k > 0 {
      SkipSpacesIs(s[1..], k - 1);
      assert s[1..][k - 1..] == s[k..];
    }
  }
}
