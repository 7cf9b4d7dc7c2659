/**
 * The trim-scope step of `writeCompleteAddress`: after the system formatter
 * has written `[addr%scope]:port` (or `addr%scope`) into a buffer of
 * IP_STRING_MAX_LENGTH characters, the `%scope` segment is removed in place,
 * by shifting the text from the first `]` left onto the first `%`, or, when
 * no `]` follows, by overwriting the segment with NUL characters. The narrow
 * and wide variants do the same on CHAR and WCHAR; both are modelled on `char`.
 */
module ScopeTrim {

  const IP_STRING_MAX_LENGTH: nat := 65
  const NUL: char := '\0'

  /**
   * `std::find(s + lo, s + n, c)` as an index: the first position in
   * `[lo, n)` holding `c`, or `n` when there is none.
   */
  function Find(s: seq<char>, lo: nat, n: nat, c: char): (r: nat)
    requires lo <= n <= |s|
    ensures lo <= r <= n
    ensures r < n ==> s[r] == c
    ensures forall k :: lo <= k < r ==> s[k] != c
    decreases n - lo
  {
    if lo == n then n
    else if s[lo] == c then lo
    else Find(s, lo + 1, n, c)
  }

  /**
   * What the trim needs of the formatter's output: when both a `%` and a `]`
   * occur in the first `n` characters, the `]` comes after the `%` (as in
   * `[fe80::1%3]:8080`). Otherwise the shifting loop would write past `n`.
   */
  predicate BracketAfterScope(s: seq<char>, n: nat)
    requires n <= |s|
  {
    var i := Find(s, 0, n, '%');
    var j := Find(s, 0, n, ']');
    i < n && j < n ==> i < j
  }

  /**
   * The buffer after the trim, over its `n` counted characters: unchanged
   * without a `%`; with a `%` at i and a `]` at j, the text `[j, n)` moved
   * to i; with a `%` and no `]`, `[i, n)` blanked with NUL.
   */
  function Trimmed(s: seq<char>, n: nat): (r: seq<char>)
    requires n <= |s| && BracketAfterScope(s, n)
    ensures |r| == |s|
  {
    var i := Find(s, 0, n, '%');
    var j := Find(s, 0, n, ']');
    if i == n then s
    else if j == n then s[..i] + seq(n - i, _ => NUL) + s[n..]
    else s[..i] + s[j..n] + s[i + (n - j)..]
  }

  /**
   * The trim keeps the text before the first `%` and never writes at or
   * past `n`; without a `%` it changes nothing.
   */
  lemma {:induction false} TrimPreserves(s: seq<char>, n: nat)
    requires n <= |s| && BracketAfterScope(s, n)
    ensures Trimmed(s, n)[..Find(s, 0, n, '%')] == s[..Find(s, 0, n, '%')]
    ensures Trimmed(s, n)[n..] == s[n..]
    ensures Find(s, 0, n, '%') == n ==> Trimmed(s, n) == s
  {
  }

  /**
   * The buffer as the formatter leaves it: ZeroMemory over all `size`
   * characters, then the formatter's `text` at the start.
   */
  function Padded(text: seq<char>, size: nat): (r: seq<char>)
    requires |text| <= size
    ensures |r| == size && r[..|text|] == text
    ensures forall k :: |text| <= k < size ==> r[k] == NUL
  {
    text + seq(size - |text|, _ => NUL)
  }

  /** The C string held by a buffer: everything before its first NUL. */
  function CString(s: seq<char>): seq<char> {
    s[..Find(s, 0, |s|, NUL)]
  }

  /** The formatter's output: `n` characters, the last of them the one NUL terminator. */
  predicate Terminated(s: seq<char>, n: nat)
    requires n <= |s|
  {
    0 < n && s[n - 1] == NUL && forall k :: 0 <= k < n - 1 ==> s[k] != NUL
  }

  /**
   * Read as a C string, the trimmed buffer is the formatted text with the
   * `%scope` segment deleted: the text before the `%`, then the text from
   * the `]` on when there is one, and nothing more otherwise.
   */
  lemma {:induction false} TrimDeletesScope(s: seq<char>, n: nat)
    requires n <= |s| && BracketAfterScope(s, n) && Terminated(s, n)
    requires Find(s, 0, n, '%') < n
    ensures var i, j := Find(s, 0, n, '%'), Find(s, 0, n, ']');
      j < n ==> CString(Trimmed(s, n)) == s[..i] + s[j..n - 1]
    ensures var i, j := Find(s, 0, n, '%'), Find(s, 0, n, ']');
      j == n ==> CString(Trimmed(s, n)) == s[..i]
  {
    var i, j := Find(s, 0, n, '%'), Find(s, 0, n, ']');
    TrimmedCases(s, n);
    if j < n {
      assert Trimmed(s, n) == s[..i] + s[j..n] + s[i + (n - j)..];
      ShiftedReads(s, n, i, j);
    } else {
      assert Trimmed(s, n) == s[..i] + seq(n - i, _ => NUL) + s[n..];
      assert s[n - 1] == NUL;
      BlankedReads(s, n, i);
    }
  }

  /** The two shapes `Trimmed` takes when the text has a `%`. */
  lemma {:induction false} TrimmedCases(s: seq<char>, n: nat)
    requires n <= |s| && BracketAfterScope(s, n) && Find(s, 0, n, '%') < n
    ensures var i, j := Find(s, 0, n, '%'), Find(s, 0, n, ']');
      j < n ==> Trimmed(s, n) == s[..i] + s[j..n] + s[i + (n - j)..]
    ensures var i, j := Find(s, 0, n, '%'), Find(s, 0, n, ']');
      j == n ==> Trimmed(s, n) == s[..i] + seq(n - i, _ => NUL) + s[n..]
  {
  }

  /**
   * What `TrimScope` leaves at each position when the text has a `%` at `i`.
   * With a `]` at `j`, the `n - j` characters from the `]` on are moved down
   * onto the `%`, and every later position keeps its old character: the
   * move does not clear what it leaves behind. Without a `]`, every position
   * from the `%` up to `n` becomes NUL. In both cases the positions before
   * the `%` keep their characters.
   */
  lemma {:induction false} TrimmedAt(s: seq<char>, n: nat)
    requires n <= |s| && BracketAfterScope(s, n) && Find(s, 0, n, '%') < n
    ensures var i := Find(s, 0, n, '%');
      forall k :: 0 <= k < i ==> Trimmed(s, n)[k] == s[k]
    ensures var i, j := Find(s, 0, n, '%'), Find(s, 0, n, ']');
      j < n ==> forall k :: i <= k < i + (n - j) ==> Trimmed(s, n)[k] == s[k - i + j]
    ensures var i, j := Find(s, 0, n, '%'), Find(s, 0, n, ']');
      j < n ==> forall k :: i + (n - j) <= k < |s| ==> Trimmed(s, n)[k] == s[k]
    ensures var i, j := Find(s, 0, n, '%'), Find(s, 0, n, ']');
      j == n ==> forall k :: i <= k < n ==> Trimmed(s, n)[k] == NUL
  {
    TrimmedCases(s, n);
  }

  /** The C string of the buffer after the shift onto the `%`. */
  lemma {:induction false} ShiftedReads(s: seq<char>, n: nat, i: nat, j: nat)
    requires n <= |s| && Terminated(s, n) && i < j < n
    ensures CString(s[..i] + s[j..n] + s[i + (n - j)..]) == s[..i] + s[j..n - 1]
  {
    var r := s[..i] + s[j..n] + s[i + (n - j)..];
    var m := i + (n - 1 - j);
    assert forall k :: 0 <= k < i ==> r[k] == s[k];
    assert forall k :: i <= k <= m ==> r[k] == s[k - i + j];
    FindFirstIs(r, m, NUL);
    assert r[..m] == s[..i] + s[j..n - 1];
  }

  /** The C string of the buffer after blanking from the `%` on. */
  lemma {:induction false} BlankedReads(s: seq<char>, n: nat, i: nat)
    requires n <= |s| && Terminated(s, n) && i < n - 1
    ensures CString(s[..i] + seq(n - i, _ => NUL) + s[n..]) == s[..i]
  {
    var r := s[..i] + seq(n - i, _ => NUL) + s[n..];
    assert r[i] == NUL;
    assert forall k :: 0 <= k < i ==> r[k] == s[k];
    FindFirstIs(r, i, NUL);
  }

  /** The first occurrence of `c` is where Find stops. */
  lemma {:induction false} FindFirstIs(s: seq<char>, m: nat, c: char)
    requires m < |s| && s[m] == c && forall k :: 0 <= k < m ==> s[k] != c
    ensures Find(s, 0, |s|, c) == m
  {
  }

  /** `[fe80::1%3]:8080` trims to `[fe80::1]:8080`. */
  lemma TrimExampleWithPort(s: seq<char>)
    requires s == "[fe80::1%3]:8080\0"
    ensures BracketAfterScope(s, |s|) && CString(Trimmed(s, |s|)) == "[fe80::1]:8080"
  {
    FindFirstIs(s, 8, '%');
    FindFirstIs(s, 10, ']');
    TrimDeletesScope(s, |s|);
    var t := s[..8] + s[10..16];
    assert forall k :: 0 <= k < 14 ==> t[k] == "[fe80::1]:8080"[k];
  }

  /** `fe80::1%3` (no port, so no brackets) trims to `fe80::1`. */
  lemma TrimExampleWithoutPort(s: seq<char>)
    requires s == "fe80::1%3\0"
    ensures BracketAfterScope(s, |s|) && CString(Trimmed(s, |s|)) == "fe80::1"
  {
    FindFirstIs(s, 7, '%');
    FindAbsent(s, ']');
    TrimDeletesScope(s, |s|);
  }

  /** Find reaches the end when the character does not occur. */
  lemma {:induction false} FindAbsent(s: seq<char>, c: char)
    requires forall k :: 0 <= k < |s| ==> s[k] != c
    ensures Find(s, 0, |s|, c) == |s|
  {
  }

  /** The final state of the shifting loop, as a sequence. */
  lemma {:induction false} ShiftedIs(a: seq<char>, s: seq<char>, n: nat, i: nat, j: nat)
    requires |a| == |s| && i <= j <= n <= |s|
    requires forall k :: 0 <= k < i ==> a[k] == s[k]
    requires forall k :: i <= k < i + (n - j) ==> a[k] == s[k - i + j]
    requires forall k :: i + (n - j) <= k < |a| ==> a[k] == s[k]
    ensures a == s[..i] + s[j..n] + s[i + (n - j)..]
  {
    var r := s[..i] + s[j..n] + s[i + (n - j)..];
    assert forall k :: 0 <= k < |a| ==> a[k] == r[k];
  }

  /** The final state of the blanking loop, as a sequence. */
  lemma {:induction false} BlankedIs(a: seq<char>, s: seq<char>, n: nat, i: nat)
    requires |a| == |s| && i <= n <= |s|
    requires forall k :: 0 <= k < i ==> a[k] == s[k]
    requires forall k :: i <= k < n ==> a[k] == NUL
    requires forall k :: n <= k < |a| ==> a[k] == s[k]
    ensures a == s[..i] + seq(n - i, _ => NUL) + s[n..]
  {
    var r := s[..i] + seq(n - i, _ => NUL) + s[n..];
    assert forall k :: 0 <= k < |a| ==> a[k] == r[k];
  }

  /**
   * The trim, in place: `scopePtr` and `movePtr` are the indices of the
   * source's two pointers, and `n` is the length the formatter reported.
   */
  method TrimScope(address: array<char>, n: nat)
    requires n <= address.Length && BracketAfterScope(address[..], n)
    modifies address
    ensures address[..] == Trimmed(old(address[..]), n)
  {
    var scopePtr := Find(address[..], 0, n, '%');
    if scopePtr != n {
      var movePtr := Find(address[..], 0, n, ']');
      if movePtr != n {
        ShiftOnto(address, n, scopePtr, movePtr);
      } else {
        Blank(address, n, scopePtr);
      }
    }
  }

  /** The first loop: copies `[movePtr, n)` down onto `scopePtr`, one character at a time. */
  method ShiftOnto(address: array<char>, n: nat, scopePtr: nat, movePtr: nat)
    requires scopePtr <= movePtr <= n <= address.Length
    modifies address
    ensures address[..] == old(address[..])[..scopePtr] + old(address[..])[movePtr..n] + old(address[..])[scopePtr + (n - movePtr)..]
  {
    ghost var s := address[..];
    ghost var i, j := scopePtr, movePtr;
    var scopePtr, movePtr := scopePtr, movePtr;
    while movePtr != n
      invariant j <= movePtr <= n && scopePtr == i + (movePtr - j)
      invariant forall k :: 0 <= k < i ==> address[k] == s[k]
      invariant forall k :: i <= k < scopePtr ==> address[k] == s[k - i + j]
      invariant forall k :: scopePtr <= k < address.Length ==> address[k] == s[k]
      decreases n - movePtr
    {
      address[scopePtr] := address[movePtr];
      scopePtr := scopePtr + 1;
      movePtr := movePtr + 1;
    }
    ShiftedIs(address[..], s, n, i, j);
  }

  /** The second loop, for text without a port: NUL from `scopePtr` up to `n`. */
  method Blank(address: array<char>, n: nat, scopePtr: nat)
    requires scopePtr <= n <= address.Length
    modifies address
    ensures address[..] == old(address[..])[..scopePtr] + seq(n - scopePtr, _ => NUL) + old(address[..])[n..]
  {
    ghost var s := address[..];
    ghost var i := scopePtr;
    var scopePtr := scopePtr;
    while scopePtr != n
      invariant i <= scopePtr <= n
      invariant forall k :: 0 <= k < i ==> address[k] == s[k]
      invariant forall k :: i <= k < scopePtr ==> address[k] == NUL
      invariant forall k :: scopePtr <= k < address.Length ==> address[k] == s[k]
      decreases n - scopePtr
    {
      address[scopePtr] := NUL;
      scopePtr := scopePtr + 1;
    }
    BlankedIs(address[..], s, n, i);
  }
}
