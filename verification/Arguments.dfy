/** The arguments of a user program: cutting the command line into words (strtok_r of lib/string.c) and
    building the first stack of the process (push_arguments of userprog/process.c of project 2). */
module Arguments {
  import opened Bytes
  import opened Options
  import opened Vaddr

  // ---- words of a string ----

  /** The number of characters up to the first one that is, or is not, a delimiter. */
  function Span(s: string, delims: string, inDelims: bool): (n: nat)
    ensures n <= |s|
    ensures forall i | 0 <= i < n :: (s[i] in delims) == inDelims
    ensures n < |s| ==> (s[n] in delims) != inDelims
  {
    if s == [] || (s[0] in delims) != inDelims then 0 else 1 + Span(s[1..], delims, inDelims)
  }

  /** The words of a string, in order. */
  function Words(s: string, delims: string): seq<string>
    decreases |s|
  {
    var t := s[Span(s, delims, true)..];
    if t == [] then [] else [t[..Span(t, delims, false)]] + Words(t[Span(t, delims, false)..], delims)
  }

  function Concat(words: seq<string>): string {
    if words == [] then [] else words[0] + Concat(words[1..])
  }

  /** The string without its delimiters. */
  function Solid(s: string, delims: string): string {
    if s == [] then [] else (if s[0] in delims then [] else [s[0]]) + Solid(s[1..], delims)
  }

  lemma {:induction false} SpanUnique(s: string, delims: string, inDelims: bool, n: nat)
    requires n <= |s| && (forall i | 0 <= i < n :: (s[i] in delims) == inDelims)
    requires n < |s| ==> (s[n] in delims) != inDelims
    ensures Span(s, delims, inDelims) == n
  {
    if n > 0 {
      assert forall i | 0 <= i < |s| - 1 :: s[1..][i] == s[i + 1];
      SpanUnique(s[1..], delims, inDelims, n - 1);
    }
  }

  /** Delimiters in front do not matter. */
  lemma SkipDelims(s: string, delims: string, n: nat)
    requires n <= |s| && forall i | 0 <= i < n :: s[i] in delims
    ensures Words(s, delims) == Words(s[n..], delims)
  {
    var m := Span(s, delims, true);
    if n <= m {
      forall i | 0 <= i < m - n
        ensures s[n..][i] in delims
      {
        assert s[n + i] in delims;
      }
      SpanUnique(s[n..], delims, true, m - n);
      assert s[n..][m - n..] == s[m..];
    }
  }

  lemma {:induction false} SolidOfSpan(s: string, delims: string, inDelims: bool, n: nat)
    requires n <= |s| && forall i | 0 <= i < n :: (s[i] in delims) == inDelims
    ensures Solid(s, delims) == (if inDelims then [] else s[..n]) + Solid(s[n..], delims)
  {
    if n > 0 {
      forall i | 0 <= i < n - 1
        ensures (s[1..][i] in delims) == inDelims
      {
        assert s[1..][i] == s[i + 1];
      }
      SolidOfSpan(s[1..], delims, inDelims, n - 1);
      assert s[1..][n - 1..] == s[n..];
      if !inDelims {
        assert [s[0]] + s[1..][..n - 1] == s[..n];
        assert Solid(s, delims) == [s[0]] + (s[1..][..n - 1] + Solid(s[n..], delims));
      }
    }
  }

  /** Unfolding the words of a string. */
  lemma FirstAndRest(s: string, delims: string) returns (word: string, rest: string)
    requires Words(s, delims) != []
    ensures Words(s, delims) == [word] + Words(rest, delims) && |rest| < |s|
    ensures word != [] && forall i | 0 <= i < |word| :: word[i] !in delims
    ensures Solid(s, delims) == word + Solid(rest, delims)
    ensures IsText(s) ==> IsText(word) && IsText(rest)
  {
    hide Solid, Span, IsText;
    var m := Span(s, delims, true);
    var t := s[m..];
    var n := Span(t, delims, false);
    word, rest := t[..n], t[n..];
    if IsText(s) {
      PartsOfText(s, m);
      PartsOfText(t, n);
    }
    SolidOfSpan(s, delims, true, m);
    SolidOfSpan(t, delims, false, n);
  }

  lemma PartsOfText(s: string, n: nat)
    requires IsText(s) && n <= |s|
    ensures IsText(s[..n]) && IsText(s[n..])
  {}

  lemma NoWords(s: string, delims: string)
    requires Words(s, delims) == []
    ensures Solid(s, delims) == []
  {
    SolidOfSpan(s, delims, true, |s|);
  }

  /** The words are not empty, have no delimiters in them, and together are the string without its
      delimiters. */
  lemma {:induction false} WordsAreTheSolidParts(s: string, delims: string)
    ensures forall w | w in Words(s, delims) :: w != [] && forall i | 0 <= i < |w| :: w[i] !in delims
    ensures Concat(Words(s, delims)) == Solid(s, delims)
    decreases |s|
  {
    hide Words, Solid;
    if Words(s, delims) == [] {
      NoWords(s, delims);
    } else {
      var word, rest := FirstAndRest(s, delims);
      WordsAreTheSolidParts(rest, delims);
      ConcatOfMore(word, Words(rest, delims));
    }
  }

  lemma ConcatOfMore(word: string, words: seq<string>)
    ensures Concat([word] + words) == word + Concat(words)
  {
    assert ([word] + words)[1..] == words;
  }

  /** Words with gaps around them. */
  function Interleaved(gaps: seq<string>, words: seq<string>): string
    requires |gaps| == |words| + 1
  {
    if words == [] then gaps[0] else gaps[0] + (words[0] + Interleaved(gaps[1..], words[1..]))
  }

  /** The string is these words, which are not empty and have no delimiters, with delimiters around them, and at
      least one between any two. */
  ghost predicate IsSplit(s: string, delims: string, gaps: seq<string>, words: seq<string>) {
    && |gaps| == |words| + 1 && s == Interleaved(gaps, words)
    && (forall k | 0 <= k < |words| :: words[k] != [] && forall i | 0 <= i < |words[k]| :: words[k][i] !in delims)
    && (forall k | 0 <= k < |gaps| :: forall i | 0 <= i < |gaps[k]| :: gaps[k][i] in delims)
    && (forall k | 0 < k < |words| :: gaps[k] != [])
  }

  lemma StartOfSplit(s: string, delims: string, gaps: seq<string>, words: seq<string>)
    requires IsSplit(s, delims, gaps, words) && words != [] && gaps[0] == []
    ensures s != [] && s[0] !in delims
  {
    assert s[0] == words[0][0];
  }

  lemma RestIsSplit(s: string, delims: string, gaps: seq<string>, words: seq<string>)
    requires IsSplit(s, delims, gaps, words) && words != []
    ensures IsSplit(Interleaved(gaps[1..], words[1..]), delims, gaps[1..], words[1..])
    ensures var rest := Interleaved(gaps[1..], words[1..]); rest != [] ==> rest[0] in delims
  {}

  lemma {:induction false} SplitHasWords(s: string, delims: string, gaps: seq<string>, words: seq<string>)
    requires IsSplit(s, delims, gaps, words)
    ensures Words(s, delims) == words
    decreases |words|
  {
    hide Words, Span, Solid;
    SkipDelims(s, delims, |gaps[0]|);
    if words == [] {
      assert s[|s|..] == [];
      NothingToSplit(delims);
    } else {
      var w, rest := words[0], Interleaved(gaps[1..], words[1..]);
      assert s[|gaps[0]|..] == w + rest;
      RestIsSplit(s, delims, gaps, words);
      FirstWord(w + rest, delims, |w|);
      assert (w + rest)[..|w|] == w && (w + rest)[|w|..] == rest;
      SplitHasWords(rest, delims, gaps[1..], words[1..]);
    }
  }

  lemma NothingToSplit(delims: string)
    ensures Words([], delims) == []
  {}

  lemma {:induction false} WordsSplit(s: string, delims: string) returns (gaps: seq<string>)
    ensures IsSplit(s, delims, gaps, Words(s, delims))
    decreases |s|
  {
    var m := Span(s, delims, true);
    var t := s[m..];
    if t == [] {
      gaps := [s];
      assert s[..m] == s;
    } else {
      var n := Span(t, delims, false);
      var more := WordsSplit(t[n..], delims);
      gaps := [s[..m]] + more;
      AddToSplit(s, delims, m, n, more, Words(t[n..], delims));
    }
  }

  lemma AddToSplit(s: string, delims: string, m: nat, n: nat, gaps: seq<string>, words: seq<string>)
    requires m + n <= |s| && n > 0 && IsSplit(s[m + n..], delims, gaps, words)
    requires (forall i | 0 <= i < m :: s[i] in delims) && (forall i | m <= i < m + n :: s[i] !in delims)
    requires m + n < |s| ==> s[m + n] in delims
    ensures IsSplit(s, delims, [s[..m]] + gaps, [s[m..m + n]] + words)
  {
    var gs, ws := [s[..m]] + gaps, [s[m..m + n]] + words;
    assert gs[1..] == gaps && ws[1..] == words;
    assert s == s[..m] + (s[m..m + n] + s[m + n..]);
    if words != [] && gaps[0] == [] {
      StartOfSplit(s[m + n..], delims, gaps, words);
      assert false;
    }
  }

  /** The words of a string are the only way to split it. */
  lemma WordsAreTheSplit(s: string, delims: string, words: seq<string>)
    ensures words == Words(s, delims) <==> exists gaps :: IsSplit(s, delims, gaps, words)
  {
    var gaps := WordsSplit(s, delims);
    if gs :| IsSplit(s, delims, gs, words) {
      SplitHasWords(s, delims, gs, words);
    }
  }

  /** strtok_r, from position `start` of a buffer whose string ends with the null at `end`: finds the next
      word and ends it with a null, or finds that there is none; the words of the rest are left. */
  method StrtokR(s: array<char>, start: nat, delims: string, ghost end: nat) returns (token: Option<nat>, save: nat)
    requires start <= end < s.Length && s[end] == '\0' && '\0' !in delims
    requires forall i | start <= i < end :: s[i] != '\0'
    modifies s
    ensures start <= save <= end
    ensures token.None? ==> Words(old(s[start..end]), delims) == [] && s[..] == old(s[..])
    ensures token.Some? ==> start <= token.value < end && CString(s[..], token.value) != []
    ensures token.Some? ==> token.value + |CString(s[..], token.value)| <= save
    ensures token.Some? ==> '\0' !in CString(s[..], token.value)
    ensures token.Some? ==>
      Words(old(s[start..end]), delims) == [CString(s[..], token.value)] + Words(s[save..end], delims)
    ensures forall i | save <= i < s.Length :: s[i] == old(s[i])
  {
    hide Words, CString;
    ghost var was := s[..];
    var p := start;
    while s[p] == '\0' || s[p] in delims
      invariant start <= p <= end
      invariant forall i | start <= i < p :: was[i] in delims
      decreases end - p
    {
      if s[p] == '\0' {
        NoWord(was, start, end, delims);
        assert s[start..end] == was[start..end];
        return None, p;
      }
      p := p + 1;
    }
    var first := p;
    while s[p] != '\0' && s[p] !in delims
      invariant first <= p <= end && (p == first ==> s[p] !in delims && s[p] != '\0')
      invariant forall i | first <= i < p :: was[i] !in delims && was[i] != '\0'
      decreases end - p
    {
      p := p + 1;
    }
    WordFound(was, start, first, p, end, delims);
    assert s[start..end] == was[start..end];
    if s[p] != '\0' {
      s[p] := '\0';
      save := p + 1;
    } else {
      save := p;
    }
    assert s[..][first..p] == was[first..p];
    CStringIs(s[..], first, was[first..p]);
    assert s[save..end] == was[save..end];
    token := Some(first);
  }

  lemma NoWord(m: seq<char>, start: nat, end: nat, delims: string)
    requires start <= end <= |m| && forall i | start <= i < end :: m[i] in delims
    ensures Words(m[start..end], delims) == []
  {
    SpanUnique(m[start..end], delims, true, end - start);
  }

  lemma WordFound(m: seq<char>, start: nat, first: nat, e: nat, end: nat, delims: string)
    requires start <= first < e <= end <= |m| && (e < end ==> m[e] in delims)
    requires (forall i | start <= i < first :: m[i] in delims) && (forall i | first <= i < e :: m[i] !in delims)
    ensures Words(m[start..end], delims) == [m[first..e]] + Words(m[if e < end then e + 1 else e..end], delims)
  {
    hide Words, Span;
    SkipDelims(m[start..end], delims, first - start);
    assert m[start..end][first - start..] == m[first..end];
    var rest := m[first..end];
    FirstWord(rest, delims, e - first);
    assert rest[..e - first] == m[first..e] && rest[e - first..] == m[e..end];
    if e < end {
      SkipDelims(m[e..end], delims, 1);
      assert m[e..end][1..] == m[e + 1..end];
    }
  }

  lemma FirstWord(rest: string, delims: string, n: nat)
    requires 0 < n <= |rest| && (forall i | 0 <= i < n :: rest[i] !in delims) && (n < |rest| ==> rest[n] in delims)
    ensures Words(rest, delims) == [rest[..n]] + Words(rest[n..], delims)
  {
    SpanUnique(rest, delims, true, 0);
    SpanUnique(rest, delims, false, n);
    assert rest[0..] == rest;
    hide Span;
  }

  /** The string that starts at an index of memory. */
  function CString(memory: seq<char>, at: nat): (r: string)
    ensures at + |r| <= |memory| || r == []
    ensures '\0' !in r
    decreases |memory| - at
  {
    if at >= |memory| || memory[at] == '\0' then [] else [memory[at]] + CString(memory, at + 1)
  }

  lemma {:induction false} CStringIs(memory: seq<char>, at: nat, word: string)
    requires at + |word| < |memory| && memory[at + |word|] == '\0' && '\0' !in word
    requires memory[at..at + |word|] == word
    ensures CString(memory, at) == word
    decreases |word|
  {
    if word != [] {
      assert memory[at] == word[0];
      assert memory[at + 1..at + |word|] == word[1..];
      CStringIs(memory, at + 1, word[1..]);
    }
  }

  // ---- what is on the stack ----

  predicate AreTexts(words: seq<string>) { forall w | w in words :: IsText(w) }

  /** The strings, pushed one after the other. */
  function Pushed(words: seq<string>): seq<Byte>
    requires AreTexts(words)
  {
    if words == [] then [] else CBytes(words[|words| - 1]) + Pushed(words[..|words| - 1])
  }

  /** The words that are the addresses of strings. */
  function Pointers(addrs: seq<nat>): (b: seq<Byte>)
    requires forall i | 0 <= i < |addrs| :: addrs[i] < ADDRESS_END
    ensures |b| == 4 * |addrs|
  {
    if addrs == [] then [] else Le(addrs[0]) + Pointers(addrs[1..])
  }

  /** Where each string is. */
  function Addresses(words: seq<string>): (a: seq<nat>)
    requires AreTexts(words) && |Pushed(words)| <= PHYS_BASE
    ensures |a| == |words| && forall i | 0 <= i < |a| :: a[i] <= PHYS_BASE
  {
    if words == [] then []
    else
      PushedIsLonger(words, |words| - 1);
      Addresses(words[..|words| - 1]) + [PHYS_BASE - |Pushed(words)|]
  }

  /** What is pushed later lies in front. */
  lemma {:induction false} PushedIsLonger(words: seq<string>, n: nat)
    requires AreTexts(words) && n <= |words|
    ensures |Pushed(words[..n])| <= |Pushed(words)|
    ensures Pushed(words)[|Pushed(words)| - |Pushed(words[..n])|..] == Pushed(words[..n])
    decreases |words|
  {
    if n == |words| {
      assert words[..n] == words;
    } else {
      var init := words[..|words| - 1];
      PushedIsLonger(init, n);
      assert init[..n] == words[..n];
    }
  }

  /** The padding that aligns the strings, and everything in front of it. */
  function Padding(words: seq<string>): (n: nat)
    requires AreTexts(words) && |Pushed(words)| <= PHYS_BASE
    ensures n < 4 && (PHYS_BASE - |Pushed(words)| - n) % 4 == 0
  {
    (PHYS_BASE - |Pushed(words)|) % 4
  }

  /** num_bytes_needed, once all words are known. */
  function Needed(words: seq<string>): nat
    requires AreTexts(words) && |Pushed(words)| <= PHYS_BASE
  {
    |Pushed(words)| + Padding(words) + 4 * (|words| + 1) + 12
  }

  /** The stack from its pointer up: return address, argc, argv, the pointers with a null behind them, the
      padding and the strings. */
  function Layout(words: seq<string>): (c: seq<Byte>)
    requires AreTexts(words) && |Pushed(words)| <= PHYS_BASE && Needed(words) <= PGSIZE
    ensures |c| == Needed(words)
  {
    Le(0) + Le(|words|) + Le(PHYS_BASE - Needed(words) + 12) + PointerArea(words)
  }

  function PointerArea(words: seq<string>): (c: seq<Byte>)
    requires AreTexts(words) && |Pushed(words)| <= PHYS_BASE
    ensures |c| == 4 * (|words| + 1) + Padding(words) + |Pushed(words)|
  {
    Pointers(Addresses(words)) + (Le(0) + (Zeros(Padding(words)) + Pushed(words)))
  }

  // ---- reading it ----

  /** What a program that is given this stack finds: its words, in order. */
  predicate Recovers(c: seq<Byte>, esp: nat, words: seq<string>) {
    && |c| >= 12 && esp + |c| == PHYS_BASE && esp % 4 == 0
    && WordAt(c, 0) == 0 && WordAt(c, 4) == |words|
    && WordAt(c, 8) == esp + 12 && 12 + 4 * |words| + 4 <= |c|
    && (forall i | 0 <= i < |words| ::
          && esp <= WordAt(c, 12 + 4 * i) < PHYS_BASE
          && StringAt(c, WordAt(c, 12 + 4 * i) - esp) == words[i])
    && WordAt(c, 12 + 4 * |words|) == 0
  }

  /** Pointers are read one by one. */
  lemma {:induction false} PointersAreRead(front: seq<Byte>, addrs: seq<nat>, back: seq<Byte>, i: nat)
    requires (forall k | 0 <= k < |addrs| :: addrs[k] < ADDRESS_END) && i < |addrs|
    ensures |front + Pointers(addrs) + back| >= |front| + 4 * i + 4
    ensures WordAt(front + Pointers(addrs) + back, |front| + 4 * i) == addrs[i]
    decreases |addrs|
  {
    var rest := Pointers(addrs[1..]);
    if i == 0 {
      assert front + Pointers(addrs) + back == front + Le(addrs[0]) + (rest + back);
      LeIsRead(addrs[0], front, rest + back);
    } else {
      PointersAreRead(front + Le(addrs[0]), addrs[1..], back, i - 1);
      assert front + Le(addrs[0]) + rest + back == front + Pointers(addrs) + back;
    }
  }

  lemma {:induction false} AddressOf(words: seq<string>, i: nat)
    requires AreTexts(words) && |Pushed(words)| <= PHYS_BASE && i < |words|
    ensures |Pushed(words[..i + 1])| <= |Pushed(words)|
    ensures Addresses(words)[i] == PHYS_BASE - |Pushed(words[..i + 1])|
    decreases |words|
  {
    PushedIsLonger(words, i + 1);
    PushedIsLonger(words, |words| - 1);
    if i == |words| - 1 {
      assert words[..i + 1] == words;
    } else {
      AddressOf(words[..|words| - 1], i);
      assert words[..|words| - 1][..i + 1] == words[..i + 1];
    }
  }

  /** The pointer to each word leads to its text. */
  lemma WordIsRead(words: seq<string>, i: nat)
    requires AreTexts(words) && |Pushed(words)| <= PHYS_BASE && Needed(words) <= PGSIZE && i < |words|
    ensures var c, esp := Layout(words), PHYS_BASE - Needed(words);
      && 12 + 4 * i + 4 <= |c| && esp <= WordAt(c, 12 + 4 * i) < PHYS_BASE
      && StringAt(c, WordAt(c, 12 + 4 * i) - esp) == words[i]
  {
    hide Layout, Pushed, Addresses, WordAt, StringAt, CBytes;
    var c, esp := Layout(words), PHYS_BASE - Needed(words);
    PointerIsRead(words, i);
    AddressOf(words, i);
    TextIsThere(words, i);
    var k := Addresses(words)[i] - esp;
    StringIsRead(c, k, words[i]);
  }

  lemma PointerIsRead(words: seq<string>, i: nat)
    requires AreTexts(words) && |Pushed(words)| <= PHYS_BASE && Needed(words) <= PGSIZE && i < |words|
    ensures 12 + 4 * i + 4 <= |Layout(words)| && WordAt(Layout(words), 12 + 4 * i) == Addresses(words)[i]
  {
    var front := Le(0) + Le(|words|) + Le(PHYS_BASE - Needed(words) + 12);
    var back := Le(0) + (Zeros(Padding(words)) + Pushed(words));
    PointersAreRead(front, Addresses(words), back, i);
    assert front + Pointers(Addresses(words)) + back == Layout(words);
  }

  /** The bytes of each word are where its address says. */
  lemma TextIsThere(words: seq<string>, i: nat)
    requires AreTexts(words) && |Pushed(words)| <= PHYS_BASE && Needed(words) <= PGSIZE && i < |words|
    ensures |Pushed(words[..i + 1])| <= |Pushed(words)| && |words[i]| + 1 <= |Pushed(words[..i + 1])|
    ensures var c := Layout(words); var k := |c| - |Pushed(words[..i + 1])|;
      k + |words[i]| < |c| && c[k..k + |words[i]| + 1] == CBytes(words[i])
  {
    hide Layout, CBytes, Pushed, Needed;
    PushedIsLonger(words, i + 1);
    PushedUpTo(words, i);
    var front := LayoutEndsWithStrings(words);
    EndOfEnd(front, Pushed(words), CBytes(words[i]), Pushed(words[..i]));
  }

  lemma LayoutEndsWithStrings(words: seq<string>) returns (front: seq<Byte>)
    requires AreTexts(words) && |Pushed(words)| <= PHYS_BASE && Needed(words) <= PGSIZE
    ensures Layout(words) == front + Pushed(words)
  {
    hide Le, Zeros, Pointers, Addresses, Pushed;
    front := Le(0) + Le(|words|) + Le(PHYS_BASE - Needed(words) + 12) + Pointers(Addresses(words)) +
      Le(0) + Zeros(Padding(words));
  }

  lemma PushedUpTo(words: seq<string>, i: nat)
    requires AreTexts(words) && i < |words|
    ensures Pushed(words[..i + 1]) == CBytes(words[i]) + Pushed(words[..i])
  {
    assert words[..i + 1][..i] == words[..i];
  }

  lemma EndOfEnd(front: seq<Byte>, p: seq<Byte>, x: seq<Byte>, y: seq<Byte>)
    requires |x + y| <= |p| && p[|p| - |x + y|..] == x + y
    ensures var k := |front + p| - |x + y|; (front + p)[k..k + |x|] == x
  {
    var k, j := |front + p| - |x + y|, |p| - |x + y|;
    assert (front + p)[k..] == p[j..];
    assert (front + p)[k..k + |x|] == (front + p)[k..][..|x|] == (x + y)[..|x|];
  }

  /** The round trip: a program that reads the stack it is given finds exactly the words. */
  lemma LayoutRecovers(words: seq<string>)
    requires AreTexts(words) && |Pushed(words)| <= PHYS_BASE && Needed(words) <= PGSIZE
    ensures Recovers(Layout(words), PHYS_BASE - Needed(words), words)
  {
    hide Pushed, Addresses, Le, WordAt, StringAt;
    var c, esp, n := Layout(words), PHYS_BASE - Needed(words), |words|;
    var area := PointerArea(words);
    assert c == [] + Le(0) + (Le(n) + Le(esp + 12) + area);
    LeIsRead(0, [], Le(n) + Le(esp + 12) + area);
    assert c == Le(0) + Le(n) + (Le(esp + 12) + area);
    LeIsRead(n, Le(0), Le(esp + 12) + area);
    assert c == Le(0) + Le(n) + Le(esp + 12) + area;
    LeIsRead(esp + 12, Le(0) + Le(n), area);
    var front := Le(0) + Le(n) + Le(esp + 12) + Pointers(Addresses(words));
    var back := Zeros(Padding(words)) + Pushed(words);
    assert c == front + Le(0) + back;
    LeIsRead(0, front, back);
    forall i | 0 <= i < n
      ensures esp <= WordAt(c, 12 + 4 * i) < PHYS_BASE
      ensures StringAt(c, WordAt(c, 12 + 4 * i) - esp) == words[i]
    {
      WordIsRead(words, i);
    }
    assert esp % 4 == 0;
  }

  /** The words of a text are texts. */
  lemma {:induction false} WordsOfText(s: string, delims: string)
    requires IsText(s)
    ensures AreTexts(Words(s, delims))
    decreases |s|
  {
    hide Words;
    if Words(s, delims) != [] {
      var word, rest := FirstAndRest(s, delims);
      WordsOfText(rest, delims);
    }
  }

  /** The words that fit, with all that goes with them, in the stack page. */
  predicate Fits(words: seq<string>) {
    AreTexts(words) && |Pushed(words)| <= PHYS_BASE && Needed(words) <= PGSIZE
  }

  /** One more string on the stack. */
  lemma PushOne(words: seq<string>, word: string)
    requires AreTexts(words) && IsText(word)
    ensures AreTexts(words + [word]) && Pushed(words + [word]) == CBytes(word) + Pushed(words)
    ensures |Pushed(words + [word])| <= PHYS_BASE ==>
      Addresses(words + [word]) == Addresses(words) + [PHYS_BASE - |Pushed(words + [word])|]
  {
    assert (words + [word])[..|words|] == words;
  }

  /** When some of the words are too long for the page, all are. */
  lemma TooLong(words: seq<string>, n: nat)
    requires AreTexts(words) && n <= |words| && |Pushed(words[..n])| > PGSIZE
    ensures !Fits(words)
  {
    PushedIsLonger(words, n);
  }

  // ---- push_arguments ----

  /** The stack page of a process, mapped at the top of user memory. */
  class UserStack {
    const page: array<Byte>
    var esp: nat

    /** setup_stack. */
    constructor ()
      ensures Valid() && esp == PHYS_BASE && fresh(page)
    {
      page := new Byte[PGSIZE];
      esp := PHYS_BASE;
    }

    predicate Valid()
      reads this
    {
      page.Length == PGSIZE && PHYS_BASE - PGSIZE <= esp <= PHYS_BASE
    }

    /** The bytes from the stack pointer up. */
    function Content(): (c: seq<Byte>)
      requires Valid()
      reads this, page
      ensures |c| == PHYS_BASE - esp
    {
      page[esp - (PHYS_BASE - PGSIZE)..]
    }

    /** `*esp -= n; memcpy (*esp, bytes, n);` */
    method Push(bytes: seq<Byte>)
      requires Valid() && |bytes| <= esp - (PHYS_BASE - PGSIZE)
      modifies this`esp, page
      ensures Valid() && esp == old(esp) - |bytes| && Content() == bytes + old(Content())
    {
      ghost var was := Content();
      esp := esp - |bytes|;
      var at := esp - (PHYS_BASE - PGSIZE);
      var i := 0;
      while i < |bytes|
        invariant i <= |bytes| && esp == at + (PHYS_BASE - PGSIZE) && page[at + |bytes|..] == was
        invariant page[at..at + i] == bytes[..i]
      {
        page[at + i] := bytes[i];
        assert page[at..at + i + 1] == page[at..at + i] + [bytes[i]];
        assert bytes[..i + 1] == bytes[..i] + [bytes[i]];
        i := i + 1;
      }
      assert page[at..] == page[at..at + |bytes|] + page[at + |bytes|..];
    }

    /** The first loop of push_arguments: the strings, as long as they fit in the page. */
    method PushStrings(cmd: array<char>, ghost line: string) returns (fits: bool, addrs: seq<nat>, bytesNeeded: nat)
      requires Valid() && esp == PHYS_BASE && IsText(line)
      requires |line| < cmd.Length && cmd[..|line|] == line && cmd[|line|] == '\0'
      modifies cmd, this`esp, page
      ensures Valid() && AreTexts(Words(line, " "))
      ensures !fits ==> !Fits(Words(line, " "))
      ensures fits ==> Content() == Pushed(Words(line, " ")) && bytesNeeded == |Content()|
      ensures fits ==> addrs == Addresses(Words(line, " "))
    {
      hide Words, Pushed, CBytes, CString, Fits, Addresses, IsText;
      ghost var end, words := |line|, Words(line, " ");
      ghost var done: seq<string> := [];
      WordsOfText(line, " ");
      assert cmd[0..end] == line;
      bytesNeeded, addrs := 0, [];
      NothingPushed();
      NoNulls(line);
      var token, save := StrtokR(cmd, 0, " ", end);
      while token.Some?
        invariant Valid() && AreTexts(words) && AreTexts(done) && bytesNeeded == |Pushed(done)| <= PGSIZE
        invariant Content() == Pushed(done) && addrs == Addresses(done)
        invariant save <= end && cmd[end] == '\0' && forall i | save <= i < end :: cmd[i] != '\0'
        invariant token.None? ==> words == done
        invariant token.Some? ==> words == done + ([CString(cmd[..], token.value)] + Words(cmd[save..end], " "))
        invariant token.Some? ==> save > token.value
        decreases if token.Some? then end - save + 1 else 0
      {
        ghost var rest := Words(cmd[save..end], " ");
        var text := CString(cmd[..], token.value);
        assert words[|done|] == text;
        PushOne(done, text);
        bytesNeeded := bytesNeeded + |text| + 1;
        if bytesNeeded > PGSIZE {
          assert words[..|done| + 1] == done + [text];
          TooLong(words, |done| + 1);
          return false, addrs, bytesNeeded;
        }
        Push(CBytes(text));
        addrs := addrs + [esp];
        done := done + [text];
        assert words == done + rest;
        token, save := StrtokR(cmd, save, " ", end);
      }
      fits := true;
    }

    /** push_arguments: it succeeds exactly if everything fits in one page.  Then the stack is what a program
        expects: reading it back gives exactly the words of the command line, in order; the pointer
        is aligned, and as many bytes were pushed as were counted. */
    method PushArguments(cmd: array<char>, ghost line: string) returns (success: bool)
      requires Valid() && esp == PHYS_BASE && IsText(line)
      requires |line| < cmd.Length && cmd[..|line|] == line && cmd[|line|] == '\0'
      modifies cmd, this`esp, page
      ensures Valid() && (success <==> Fits(Words(line, " ")))
      ensures success ==> Content() == Layout(Words(line, " ")) && PHYS_BASE - esp == Needed(Words(line, " ")) <= PGSIZE
      ensures success ==> esp % 4 == 0 && Recovers(Content(), esp, Words(line, " "))
    {
      hide Words, Pushed, CBytes, CString, Addresses, IsText, Pointers, Recovers, Le, Zeros, Layout, PointerArea,
           Padding, Needed, Fits;
      ghost var words := Words(line, " ");
      var fits, addrs, bytesNeeded := PushStrings(cmd, line);
      if !fits {
        return false;
      }
      Accounting(words, esp);
      var argc := |addrs|;
      var aligned := esp - esp % 4;
      var diff := esp - aligned;
      bytesNeeded := bytesNeeded + diff + (argc + 1) * 4 + 4 + 4 + 4;
      if bytesNeeded > PGSIZE {
        return false;
      }
      PushPadding(diff);
      Push(Le(0));
      PushPointers(addrs);
      var argv := esp;
      Push(Le(argv));
      Push(Le(argc));
      Push(Le(0));
      LayoutAsPushed(words);
      LayoutRecovers(words);
      Aligned(Content(), esp, words);
      return true;
    }

    method PushPadding(n: nat)
      requires Valid() && n <= esp - (PHYS_BASE - PGSIZE)
      modifies this`esp, page
      ensures Valid() && esp == old(esp) - n && Content() == Zeros(n) + old(Content())
    {
      hide Zeros;
      ghost var esp0 := esp;
      var i := 0;
      MoreZeros(0, old(Content()));
      while i < n
        invariant i <= n && Valid() && esp == esp0 - i && Content() == Zeros(i) + old(Content())
      {
        Push([0]);
        MoreZeros(i, old(Content()));
        i := i + 1;
      }
    }

    method PushPointers(addrs: seq<nat>)
      requires Valid() && 4 * |addrs| <= esp - (PHYS_BASE - PGSIZE)
      requires forall i | 0 <= i < |addrs| :: addrs[i] < ADDRESS_END
      modifies this`esp, page
      ensures Valid() && esp == old(esp) - 4 * |addrs| && Content() == Pointers(addrs) + old(Content())
    {
      hide Le, Pointers;
      ghost var esp0 := esp;
      var n := |addrs|;
      NoPointers(addrs, old(Content()));
      while n > 0
        invariant 0 <= n <= |addrs| && Valid() && esp == esp0 - 4 * (|addrs| - n)
        invariant Content() == Pointers(addrs[n..]) + old(Content())
      {
        n := n - 1;
        Push(Le(addrs[n]));
        OneMorePointer(addrs, n, old(Content()));
      }
      assert addrs[0..] == addrs;
    }
  }

  lemma NoPointers(addrs: seq<nat>, rest: seq<Byte>)
    ensures Pointers(addrs[|addrs|..]) + rest == rest
  {}

  lemma OneMorePointer(addrs: seq<nat>, n: nat, rest: seq<Byte>)
    requires n < |addrs| && forall i | 0 <= i < |addrs| :: addrs[i] < ADDRESS_END
    ensures Le(addrs[n]) + (Pointers(addrs[n + 1..]) + rest) == Pointers(addrs[n..]) + rest
  {
    assert addrs[n..][1..] == addrs[n + 1..];
    assert Pointers(addrs[n..]) == Le(addrs[n]) + Pointers(addrs[n + 1..]);
    hide Le, Pointers;
  }

  lemma Accounting(words: seq<string>, esp: nat)
    requires AreTexts(words) && |Pushed(words)| <= PGSIZE && esp == PHYS_BASE - |Pushed(words)|
    ensures esp % 4 == Padding(words) <= 3
    ensures Needed(words) == |Pushed(words)| + esp % 4 + (|words| + 1) * 4 + 12
    ensures Fits(words) <==> Needed(words) <= PGSIZE
  {
    hide Pushed;
  }

  lemma Aligned(c: seq<Byte>, esp: nat, words: seq<string>)
    requires Recovers(c, esp, words)
    ensures esp % 4 == 0
  {}

  lemma MoreZeros(n: nat, rest: seq<Byte>)
    ensures Zeros(0) + rest == rest && [0] + (Zeros(n) + rest) == Zeros(n + 1) + rest
  {
    assert [0] + Zeros(n) == Zeros(n + 1);
  }

  /** The layout, built from its end. */
  lemma LayoutAsPushed(words: seq<string>)
    requires Fits(words)
    ensures Layout(words) == Le(0) + (Le(|words|) + (Le(PHYS_BASE - Needed(words) + 12) +
      (Pointers(Addresses(words)) + (Le(0) + (Zeros(Padding(words)) + Pushed(words))))))
  {
    hide Le, Zeros, Pointers, Addresses, Pushed, Padding;
    Reassociate(Le(0), Le(|words|), Le(PHYS_BASE - Needed(words) + 12), PointerArea(words));
  }

  lemma Reassociate(a: seq<Byte>, b: seq<Byte>, c: seq<Byte>, d: seq<Byte>)
    ensures a + b + c + d == a + (b + (c + d))
  {}

  lemma NothingPushed()
    ensures Pushed([]) == [] && Addresses([]) == []
  {}

  lemma NoNulls(s: string)
    requires IsText(s)
    ensures forall i | 0 <= i < |s| :: s[i] != '\0'
  {}
}
