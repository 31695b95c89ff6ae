/** bip39_match and bip39_word_to_sets (lib/bip39/bip39in.c): entering
    BIP-0039 words on a ten-key pad, each key standing for a set of
    letters. Strings are the contents of C strings, without the NUL. */
module Bip39In {

  /** bip39_sets: the letters of keys '0' to '9'. */
  const Sets: seq<string> := ["ab", "cd", "ef", "ghi", "jklm", "nop", "qr", "s", "tu", "vwxyz"]

  /** The number of keys, ARRAY_ENTRIES(bip39_sets); also "no key". */
  const KeyCount: nat := 10

  /** The contents of a C string hold no NUL. */
  predicate CString(s: string)
  {
    forall i :: 0 <= i < |s| ==> s[i] != '\0'
  }

  predicate IsDigit(c: char)
  {
    '0' <= c <= '9'
  }

  /** A key sequence: the digits '0' to '9' bip39_match asserts. */
  predicate KeyString(s: string)
  {
    forall i :: 0 <= i < |s| ==> IsDigit(s[i])
  }

  function DigitOf(c: char): (k: nat)
    requires IsDigit(c)
    ensures k < KeyCount
  {
    c as int - '0' as int
  }

  function DigitChar(k: nat): (c: char)
    requires k < KeyCount
    ensures IsDigit(c) && DigitOf(c) == k
  {
    ('0' as int + k) as char
  }

  lemma {:induction false} DigitCharOf(c: char)
    requires IsDigit(c)
    ensures DigitChar(DigitOf(c)) == c
  {
  }

  /** The first key at or after k whose set holds c (strchr with c not
      NUL), or KeyCount when there is none. */
  function SetFrom(c: char, k: nat): (r: nat)
    requires k <= KeyCount
    ensures k <= r <= KeyCount
    ensures r < KeyCount ==> c in Sets[r]
    ensures forall j :: k <= j < r ==> c !in Sets[j]
    decreases KeyCount - k
  {
    if k == KeyCount then KeyCount
    else if c in Sets[k] then k
    else SetFrom(c, k + 1)
  }

  /** The key of the letter c, by the search both functions make: the
      first set holding it, or KeyCount. */
  function SetOf(c: char): (r: nat)
    ensures r <= KeyCount
  {
    SetFrom(c, 0)
  }

  // ---------------------------------------------------------------------
  // The sets split the lower-case alphabet.

  /** The sets hold exactly the letters 'a' to 'z'. */
  lemma {:induction false} SetsAreLetters(c: char, k: nat)
    requires k < KeyCount
    ensures c in Sets[k] ==> 'a' <= c <= 'z'
  {
  }

  /** Each letter has exactly one key: SetOf finds it, and no other set
      holds the letter. */
  lemma {:induction false} SetOfUnique(c: char, k: nat)
    requires k < KeyCount
    ensures c in Sets[k] <==> SetOf(c) == k
  {
    var r := SetOf(c);
    if c in Sets[k] && r != k {
      assert r < k;
      assert c in Sets[r];
      Disjoint(c, r, k);
    }
  }

  /** No letter is on two keys. */
  lemma {:induction false} Disjoint(c: char, j: nat, k: nat)
    requires j < k < KeyCount && c in Sets[j]
    ensures c !in Sets[k]
  {
  }

  /** Every lower-case letter is on some key, and nothing else is. */
  lemma {:induction false} LettersCovered(c: char)
    ensures SetOf(c) < KeyCount <==> 'a' <= c <= 'z'
  {
    if SetOf(c) < KeyCount {
      SetsAreLetters(c, SetOf(c));
    }
  }

  // ---------------------------------------------------------------------
  // Reference: what a key sequence spells.

  /** The word w matches the key string s: it has at least |s| letters and
      its j-th letter is in the set of the j-th key. */
  predicate Spells(w: string, s: string)
    requires KeyString(s)
  {
    |s| <= |w| && forall j :: 0 <= j < |s| ==> w[j] in Sets[DigitOf(s[j])]
  }

  /** Every letter of w is on a key. */
  predicate Lettered(w: string)
  {
    forall i :: 0 <= i < |w| ==> SetOf(w[i]) < KeyCount
  }

  /** The keys to press for w. */
  function Keys(w: string): (r: string)
    requires Lettered(w)
    ensures |r| == |w| && KeyString(r)
  {
    seq(|w|, i requires 0 <= i < |w| => DigitChar(SetOf(w[i])))
  }

  /** A word matches a key string exactly when the keys are those of its
      first |s| letters. */
  lemma {:induction false} SpellsKeys(w: string, s: string)
    requires KeyString(s) && Lettered(w)
    ensures Spells(w, s) <==> |s| <= |w| && s == Keys(w[..|s|])
  {
    if |s| <= |w| {
      var ks := Keys(w[..|s|]);
      if Spells(w, s) {
        forall j | 0 <= j < |s|
          ensures s[j] == ks[j]
        {
          SetOfUnique(w[j], DigitOf(s[j]));
          DigitCharOf(s[j]);
        }
      }
    }
  }

  /** Corollary: a word spells its own keys. */
  lemma {:induction false} SpellsOwnKeys(w: string)
    requires Lettered(w)
    ensures Spells(w, Keys(w))
  {
    SpellsKeys(w, Keys(w));
    assert w[..|w|] == w;
  }

  /** The indices below n of the words that match s, ascending. */
  function MatchList(words: seq<string>, s: string, n: nat): (r: seq<nat>)
    requires KeyString(s) && n <= |words|
    ensures forall i: nat :: i in r <==> i < n && Spells(words[i], s)
    ensures forall a, b :: 0 <= a < b < |r| ==> r[a] < r[b]
  {
    if n == 0 then []
    else
      var r := MatchList(words, s, n - 1);
      assert forall a :: 0 <= a < |r| ==> r[a] < n - 1 by {
        forall a | 0 <= a < |r|
          ensures r[a] < n - 1
        {
          assert r[a] in r;
        }
      }
      r + (if Spells(words[n - 1], s) then [n - 1] else [])
  }

  /** Word i matches s and its next letter is on key k. */
  predicate NextKey(words: seq<string>, s: string, i: nat, k: nat)
    requires KeyString(s) && i < |words|
  {
    Spells(words[i], s) && |s| < |words[i]| && SetOf(words[i][|s|]) == k
  }

  /** Some word below n matches s and continues on key k. */
  ghost predicate NextKeyBelow(words: seq<string>, s: string, n: nat, k: nat)
    requires KeyString(s) && n <= |words|
  {
    exists i :: 0 <= i < n && NextKey(words, s, i, k)
  }

  // ---------------------------------------------------------------------
  // bip39_match.

  /** The inner loop: how far s matches w, key by key. */
  method Scan(w: string, s: string) returns (t: nat)
    requires KeyString(s)
    ensures t <= |s| && t <= |w|
    ensures t == |s| <==> Spells(w, s)
  {
    t := 0;
    while t < |s|
      invariant t <= |s| && t <= |w|
      invariant forall j :: 0 <= j < t ==> w[j] in Sets[DigitOf(s[j])]
    {
      if t == |w| {
        break;
      }
      if w[t] !in Sets[DigitOf(s[t])] {
        break;
      }
      t := t + 1;
    }
  }

  /** The next-letter flags after word i. */
  lemma {:induction false} NextKeyStep(words: seq<string>, s: string, i: nat, k: nat)
    requires KeyString(s) && i < |words|
    ensures NextKeyBelow(words, s, i + 1, k) <==> NextKeyBelow(words, s, i, k) || NextKey(words, s, i, k)
  {
    if NextKeyBelow(words, s, i + 1, k) && !NextKey(words, s, i, k) {
      var j :| 0 <= j < i + 1 && NextKey(words, s, j, k);
      assert j < i;
    }
  }

  /** The digit string of the flagged keys, ascending. */
  method ListKeys(flags: seq<bool>) returns (next: string)
    requires |flags| == KeyCount
    ensures KeyString(next)
    ensures forall k :: 0 <= k < KeyCount ==> (DigitChar(k) in next <==> flags[k])
    ensures forall a, b :: 0 <= a < b < |next| ==> next[a] < next[b]
  {
    next := [];
    var k := 0;
    while k != KeyCount
      invariant k <= KeyCount && KeyString(next)
      invariant forall j :: 0 <= j < KeyCount ==> (DigitChar(j) in next <==> j < k && flags[j])
      invariant forall a :: 0 <= a < |next| ==> DigitOf(next[a]) < k
      invariant forall a, b :: 0 <= a < b < |next| ==> next[a] < next[b]
    {
      if flags[k] {
        next := next + [DigitChar(k)];
      }
      k := k + 1;
    }
  }

  /** One step of the next-letter flags: word i, matched up to t, flags
      the key of the letter after the keys when it spells all of them. */
  method MarkNext(words: seq<string>, s: string, i: nat, t: nat, flags: seq<bool>)
    returns (marked: seq<bool>)
    requires KeyString(s) && i < |words| && |flags| == KeyCount
    requires t <= |s| && t <= |words[i]| && (t == |s| <==> Spells(words[i], s))
    requires forall k :: 0 <= k < KeyCount ==> (flags[k] <==> NextKeyBelow(words, s, i, k))
    ensures |marked| == KeyCount
    ensures forall k :: 0 <= k < KeyCount ==> (marked[k] <==> NextKeyBelow(words, s, i + 1, k))
  {
    var w := words[i];
    var hit := t == |s| && t < |w|;
    var key := if hit then SetOf(w[t]) else KeyCount;
    marked := if key < KeyCount then flags[key := true] else flags;
    forall k | 0 <= k < KeyCount
      ensures marked[k] <==> NextKeyBelow(words, s, i + 1, k)
    {
      NextKeyStep(words, s, i, k);
      assert NextKey(words, s, i, k) <==> key == k;
    }
  }

  /** bip39_match: the indices of the words matching the keys s, ascending,
      their number, and (when next is wanted) the keys of the letters that
      can follow, ascending. */
  method Match(words: seq<string>, s: string, wantNext: bool)
    returns (count: nat, matches: seq<nat>, next: string)
    requires KeyString(s)
    requires forall i :: 0 <= i < |words| ==> CString(words[i])
    ensures matches == MatchList(words, s, |words|) && count == |matches|
    ensures forall i: nat :: i in matches <==> i < |words| && Spells(words[i], s)
    ensures wantNext ==> KeyString(next)
    ensures wantNext ==> forall k :: 0 <= k < KeyCount ==>
      (DigitChar(k) in next <==> NextKeyBelow(words, s, |words|, k))
    ensures wantNext ==> forall a, b :: 0 <= a < b < |next| ==> next[a] < next[b]
  {
    var nextSet := seq(KeyCount, _ => false);
    matches := [];
    var i := 0;
    while i != |words|
      invariant i <= |words| && |nextSet| == KeyCount
      invariant matches == MatchList(words, s, i)
      invariant wantNext ==> forall k :: 0 <= k < KeyCount ==> (nextSet[k] <==> NextKeyBelow(words, s, i, k))
    {
      var w := words[i];
      var t := Scan(w, s);
      if wantNext {
        nextSet := MarkNext(words, s, i, t, nextSet);
      }
      if t == |s| {
        matches := matches + [i];
      }
      i := i + 1;
    }
    count := |matches|;
    next := [];
    if wantNext {
      next := ListKeys(nextSet);
    }
  }

  // ---------------------------------------------------------------------
  // bip39_word_to_sets.

  function Min(a: nat, b: nat): nat
  {
    if a < b then a else b
  }

  /** bip39_word_to_sets: the keys of at most maxLen letters of s, or -1
      when one of them is on no key. On failure out holds the keys written
      before the bad letter, unterminated. */
  method WordToSets(s: string, maxLen: nat) returns (r: int, out: string)
    requires CString(s)
    ensures var m := Min(|s|, maxLen);
      (r == -1 <==> exists i :: 0 <= i < m && SetOf(s[i]) == KeyCount)
    ensures r != -1 ==> r == |out| == Min(|s|, maxLen) && Lettered(s[..r]) && out == Keys(s[..r])
    ensures r == -1 ==> |out| < Min(|s|, maxLen) && SetOf(s[|out|]) == KeyCount
    ensures r == -1 ==> Lettered(s[..|out|]) && out == Keys(s[..|out|])
  {
    out := [];
    var i := 0;
    while i < |s| && |out| < maxLen
      invariant i <= |s| && |out| == i && i <= Min(|s|, maxLen)
      invariant Lettered(s[..i]) && out == Keys(s[..i])
    {
      var k := SetOf(s[i]);
      if k == KeyCount {
        return -1, out;
      }
      assert s[..i + 1] == s[..i] + [s[i]];
      out := out + [DigitChar(k)];
      i := i + 1;
    }
    r := |out|;
  }
}
