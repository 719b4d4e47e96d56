/**
 * The part of `std::string_view` that the signature parsers rely on:
 * `find`, `rfind`, `find_first_of`, `find_last_of` and `substr`, together
 * with the unsigned `std::size_t` arithmetic the parsers do on their results.
 *
 * A search returns `None` where the C++ member returns `npos`.  Each search
 * states in its own contract only where a hit can lie; the lemma after it
 * proves the search against the "first"/"last" predicate below, which is
 * the reference definition of what it finds.
 */
module StringView {
  import opened Wrappers

  /** `std::size_t` is a 64-bit unsigned integer; `npos` is its largest value. */
  const SIZE_MODULUS: nat := 0x1_0000_0000_0000_0000
  const NPOS: nat := SIZE_MODULUS - 1

  /** A string that a `std::string_view` can hold: shorter than `npos`. */
  predicate IsView(s: string) { |s| < NPOS }

  /**
   * `a + b` in `std::size_t`, wrapping around: the value below 2^64 that
   * differs from the exact sum by a multiple of 2^64 (see SizeAddIsModular).
   */
  function SizeAdd(a: nat, b: nat): (r: nat)
    requires a < SIZE_MODULUS && b < SIZE_MODULUS
    ensures r < SIZE_MODULUS && (r == a + b || r == a + b - SIZE_MODULUS)
  {
    if a + b < SIZE_MODULUS then a + b else a + b - SIZE_MODULUS
  }

  /**
   * `a - b` in `std::size_t`, wrapping around: the value below 2^64 that
   * differs from the exact difference by a multiple of 2^64 (see
   * SizeSubIsModular).
   */
  function SizeSub(a: nat, b: nat): (r: nat)
    requires a < SIZE_MODULUS && b < SIZE_MODULUS
    ensures r < SIZE_MODULUS && (r == a - b || r == a - b + SIZE_MODULUS)
  {
    if b <= a then a - b else SIZE_MODULUS + a - b
  }

  /** Unsigned addition is addition modulo 2^64, as C++ defines it. */
  lemma SizeAddIsModular(a: nat, b: nat)
    requires a < SIZE_MODULUS && b < SIZE_MODULUS
    ensures SizeAdd(a, b) == (a + b) % SIZE_MODULUS
  {
  }

  /** Unsigned subtraction is subtraction modulo 2^64, as C++ defines it. */
  lemma SizeSubIsModular(a: nat, b: nat)
    requires a < SIZE_MODULUS && b < SIZE_MODULUS
    ensures SizeSub(a, b) == (a - b) % SIZE_MODULUS
  {
  }

  /** The `std::size_t` a search hands back: its index, or `npos`. */
  function SizeOf(r: Option<nat>): nat
  {
    if r.Some? then r.value else NPOS
  }

  // ----- reference definitions of the searches -----

  /** `pat` occurs in `s` starting at index `i`. */
  predicate OccursAt(s: string, pat: string, i: nat)
  {
    i + |pat| <= |s| && s[i..i + |pat|] == pat
  }

  /** `i` is the first start of `pat` at or after `from`. */
  ghost predicate IsFirst(s: string, pat: string, from: nat, i: nat)
  {
    from <= i && OccursAt(s, pat, i) && forall k: nat :: from <= k < i ==> !OccursAt(s, pat, k)
  }

  /** `pat` does not start anywhere at or after `from`. */
  ghost predicate AbsentFrom(s: string, pat: string, from: nat)
  {
    forall k: nat :: from <= k ==> !OccursAt(s, pat, k)
  }

  /** `i` is the last start of `pat` at or before `upto`. */
  ghost predicate IsLast(s: string, pat: string, upto: nat, i: nat)
  {
    i <= upto && OccursAt(s, pat, i) && forall k: nat :: i < k <= upto ==> !OccursAt(s, pat, k)
  }

  /** `pat` does not start anywhere at or before `upto`. */
  ghost predicate AbsentUpTo(s: string, pat: string, upto: nat)
  {
    forall k: nat :: k <= upto ==> !OccursAt(s, pat, k)
  }

  /** `i` is the first index at or after `from` holding one of `chars`. */
  ghost predicate IsFirstOf(s: string, chars: string, from: nat, i: nat)
  {
    from <= i < |s| && s[i] in chars && forall k: nat :: from <= k < i ==> s[k] !in chars
  }

  /** No index at or after `from` holds one of `chars`. */
  ghost predicate NoneOfFrom(s: string, chars: string, from: nat)
  {
    forall k: nat :: from <= k < |s| ==> s[k] !in chars
  }

  /** `i` is the last index at or before `upto` holding one of `chars`. */
  ghost predicate IsLastOf(s: string, chars: string, upto: nat, i: nat)
  {
    i <= upto && i < |s| && s[i] in chars && forall k: nat :: i < k <= upto && k < |s| ==> s[k] !in chars
  }

  /** No index at or before `upto` holds one of `chars`. */
  ghost predicate NoneOfUpTo(s: string, chars: string, upto: nat)
  {
    forall k: nat :: k <= upto && k < |s| ==> s[k] !in chars
  }

  /** `r` is a contiguous piece of `s`. */
  ghost predicate IsSliceOf(r: string, s: string)
  {
    exists i, j | 0 <= i <= j <= |s| :: r == s[i..j]
  }

  // ----- the searches -----

  /** `s.find(pat, pos)`: the first start of `pat` at or after `pos` (see FindIsFirst). */
  function Find(s: string, pat: string, pos: nat): (r: Option<nat>)
    ensures r.Some? ==> pos <= r.value && r.value + |pat| <= |s|
    decreases |s| - pos
  {
    if pos + |pat| > |s| then None
    else if OccursAt(s, pat, pos) then Some(pos)
    else Find(s, pat, pos + 1)
  }

  /** Find answers the first occurrence from `pos` on, and `npos` exactly when there is none. */
  lemma {:induction false} FindIsFirst(s: string, pat: string, pos: nat)
    ensures Find(s, pat, pos).Some? ==> IsFirst(s, pat, pos, Find(s, pat, pos).value)
    ensures Find(s, pat, pos).None? ==> AbsentFrom(s, pat, pos)
    decreases |s| - pos
  {
    if pos + |pat| > |s| {
    } else if OccursAt(s, pat, pos) {
    } else {
      FindIsFirst(s, pat, pos + 1);
    }
  }

  /** The last start of `pat` at or before `i`, searching down from `i`. */
  function RFindDown(s: string, pat: string, i: nat): (r: Option<nat>)
    ensures r.Some? ==> r.value <= i && r.value + |pat| <= |s|
  {
    if OccursAt(s, pat, i) then Some(i)
    else if i == 0 then None
    else RFindDown(s, pat, i - 1)
  }

  lemma {:induction false} RFindDownIsLast(s: string, pat: string, i: nat)
    ensures RFindDown(s, pat, i).Some? ==> IsLast(s, pat, i, RFindDown(s, pat, i).value)
    ensures RFindDown(s, pat, i).None? ==> AbsentUpTo(s, pat, i)
  {
    if OccursAt(s, pat, i) {
    } else if i == 0 {
    } else {
      RFindDownIsLast(s, pat, i - 1);
    }
  }

  /** `s.rfind(pat, pos)`: the last start of `pat` at or before `pos` (see RFindIsLast). */
  function RFind(s: string, pat: string, pos: nat): (r: Option<nat>)
    ensures r.Some? ==> r.value <= pos && r.value + |pat| <= |s|
  {
    if |pat| > |s| then None
    else
      // no occurrence can start after |s| - |pat|
      var start := if pos < |s| - |pat| then pos else |s| - |pat|;
      RFindDown(s, pat, start)
  }

  /** RFind answers the last occurrence up to `pos`, and `npos` exactly when there is none. */
  lemma RFindIsLast(s: string, pat: string, pos: nat)
    ensures RFind(s, pat, pos).Some? ==> IsLast(s, pat, pos, RFind(s, pat, pos).value)
    ensures RFind(s, pat, pos).None? ==> AbsentUpTo(s, pat, pos)
  {
    if |pat| <= |s| {
      RFindDownIsLast(s, pat, if pos < |s| - |pat| then pos else |s| - |pat|);
    }
  }

  /** `s.find_first_of(chars, pos)`: the first index at or after `pos` holding any of `chars` (see FindFirstOfIsFirst). */
  function FindFirstOf(s: string, chars: string, pos: nat): (r: Option<nat>)
    ensures r.Some? ==> pos <= r.value < |s| && s[r.value] in chars
    decreases |s| - pos
  {
    if pos >= |s| then None
    else if s[pos] in chars then Some(pos)
    else FindFirstOf(s, chars, pos + 1)
  }

  /** FindFirstOf answers the first index holding one of `chars`, and `npos` exactly when there is none. */
  lemma {:induction false} FindFirstOfIsFirst(s: string, chars: string, pos: nat)
    ensures FindFirstOf(s, chars, pos).Some? ==> IsFirstOf(s, chars, pos, FindFirstOf(s, chars, pos).value)
    ensures FindFirstOf(s, chars, pos).None? ==> NoneOfFrom(s, chars, pos)
    decreases |s| - pos
  {
    if pos >= |s| {
    } else if s[pos] in chars {
    } else {
      FindFirstOfIsFirst(s, chars, pos + 1);
    }
  }

  /** The last index at or before `i` holding any of `chars`, searching down from `i < |s|`. */
  function FindLastOfDown(s: string, chars: string, i: nat): (r: Option<nat>)
    requires i < |s|
    ensures r.Some? ==> r.value <= i && s[r.value] in chars
  {
    if s[i] in chars then Some(i)
    else if i == 0 then None
    else FindLastOfDown(s, chars, i - 1)
  }

  lemma {:induction false} FindLastOfDownIsLast(s: string, chars: string, i: nat)
    requires i < |s|
    ensures FindLastOfDown(s, chars, i).Some? ==> IsLastOf(s, chars, i, FindLastOfDown(s, chars, i).value)
    ensures FindLastOfDown(s, chars, i).None? ==> NoneOfUpTo(s, chars, i)
  {
    if s[i] in chars {
    } else if i == 0 {
    } else {
      FindLastOfDownIsLast(s, chars, i - 1);
    }
  }

  /** `s.find_last_of(chars, pos)`: the last index at or before `pos` holding any of `chars` (see FindLastOfIsLast). */
  function FindLastOf(s: string, chars: string, pos: nat): (r: Option<nat>)
    ensures r.Some? ==> r.value <= pos && r.value < |s| && s[r.value] in chars
  {
    if |s| == 0 then None
    else FindLastOfDown(s, chars, if pos < |s| then pos else |s| - 1)
  }

  /** FindLastOf answers the last index holding one of `chars`, and `npos` exactly when there is none. */
  lemma FindLastOfIsLast(s: string, chars: string, pos: nat)
    ensures FindLastOf(s, chars, pos).Some? ==> IsLastOf(s, chars, pos, FindLastOf(s, chars, pos).value)
    ensures FindLastOf(s, chars, pos).None? ==> NoneOfUpTo(s, chars, pos)
  {
    if |s| != 0 {
      FindLastOfDownIsLast(s, chars, if pos < |s| then pos else |s| - 1);
    }
  }

  /**
   * `s.substr(pos, count)` for a `pos` that does not throw: at most `count`
   * characters from `pos`, clipped at the end of `s`.
   */
  function Substr(s: string, pos: nat, count: nat): (r: string)
    requires pos <= |s|
    ensures count <= |s| - pos ==> r == s[pos..pos + count]
    ensures count >= |s| - pos ==> r == s[pos..]
  {
    if count <= |s| - pos then s[pos..pos + count] else s[pos..]
  }

  /** What `substr` returns is a contiguous piece of the view. */
  lemma SubstrIsSlice(s: string, pos: nat, count: nat)
    requires pos <= |s|
    ensures IsSliceOf(Substr(s, pos, count), s)
  {
    var j := if count <= |s| - pos then pos + count else |s|;
    assert Substr(s, pos, count) == s[pos..j];
  }

  /** The whole view counts as a slice of itself. */
  lemma WholeIsSlice(s: string)
    ensures IsSliceOf(s, s)
  {
    assert s == s[0..|s|];
  }

  // ----- how the searches answer on known positions -----

  lemma FindAt(s: string, pat: string, pos: nat, i: nat)
    requires IsFirst(s, pat, pos, i)
    ensures Find(s, pat, pos) == Some(i)
  {
    FindIsFirst(s, pat, pos);
  }

  lemma FindAbsent(s: string, pat: string, pos: nat)
    requires AbsentFrom(s, pat, pos)
    ensures Find(s, pat, pos) == None
  {
    FindIsFirst(s, pat, pos);
  }

  lemma RFindAt(s: string, pat: string, pos: nat, i: nat)
    requires IsLast(s, pat, pos, i)
    ensures RFind(s, pat, pos) == Some(i)
  {
    RFindIsLast(s, pat, pos);
  }

  lemma RFindAbsent(s: string, pat: string, pos: nat)
    requires AbsentUpTo(s, pat, pos)
    ensures RFind(s, pat, pos) == None
  {
    RFindIsLast(s, pat, pos);
  }

  lemma FindFirstOfAt(s: string, chars: string, pos: nat, i: nat)
    requires IsFirstOf(s, chars, pos, i)
    ensures FindFirstOf(s, chars, pos) == Some(i)
  {
    FindFirstOfIsFirst(s, chars, pos);
  }

  lemma FindFirstOfAbsent(s: string, chars: string, pos: nat)
    requires NoneOfFrom(s, chars, pos)
    ensures FindFirstOf(s, chars, pos) == None
  {
    FindFirstOfIsFirst(s, chars, pos);
  }

  lemma FindLastOfAt(s: string, chars: string, pos: nat, i: nat)
    requires IsLastOf(s, chars, pos, i)
    ensures FindLastOf(s, chars, pos) == Some(i)
  {
    FindLastOfIsLast(s, chars, pos);
  }

  lemma FindLastOfAbsent(s: string, chars: string, pos: nat)
    requires NoneOfUpTo(s, chars, pos)
    ensures FindLastOf(s, chars, pos) == None
  {
    FindLastOfIsLast(s, chars, pos);
  }

  /** `pat` cannot start at `k` when some character under it differs. */
  lemma NotOccursAt(s: string, pat: string, k: nat, j: nat)
    requires j < |pat| && k + j < |s| && s[k + j] != pat[j]
    ensures !OccursAt(s, pat, k)
  {
    if k + |pat| <= |s| {
      assert s[k..k + |pat|][j] == s[k + j];
    }
  }

  /** A one-character pattern occurs exactly where that character stands. */
  lemma OccursAtChar(s: string, c: char, i: nat)
    ensures OccursAt(s, [c], i) <==> i < |s| && s[i] == c
  {
    if i < |s| && s[i] == c {
      assert s[i..i + 1] == [c];
    }
  }
}
