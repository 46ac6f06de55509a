/** The skip search, and its agreement with naive search. */
module MgrepSearch {
  import opened CBytes
  import opened MgrepSpec
  import opened MgrepImage

  // ---- facts about one window ----------------------------------------------------

  lemma MatchGoesOn(text: seq<byte>, s: int, pat: seq<byte>, o: int, j: nat, n: nat)
    requires FoldMatch(text, s, pat, o, n) && j < n
    ensures s + j < |text| && o + j < |pat| && Fold(text[s + j]) == Fold(pat[o + j])
  {
    assert Fold(text[s + j]) == Fold(pat[o + (s + j - s)]);
  }

  lemma ShorterMatch(text: seq<byte>, s: int, pat: seq<byte>, o: int, n: int, n': int)
    requires FoldMatch(text, s, pat, o, n) && 0 <= n' <= n
    ensures FoldMatch(text, s, pat, o, n')
  {
  }

  /** A pattern whose prefix matches a window is in the window's bucket. */
  lemma MatchInBucket(v: Image, text: seq<byte>, i: int, s: nat)
    requires v.Ready() && 1 <= i <= v.num
    requires FoldMatch(text, s, v.spool, v.patt[i], v.m)
    ensures i in v.ChainTo(v.num, Bucket(text, s, v.m, false))
  {
    var h := Bucket(text, s, v.m, false);
    SameHash(text, s, v.spool, v.patt[i], 0, v.m, false);
    ChainIsComplete(v.spool, v.patt, v.m, false, v.num, h);
  }

  lemma HeadBelow(v: Image, k: nat, h: nat)
    requires v.Fits() && k <= v.num
    ensures Head(v.ChainTo(k, h)) <= k && (v.ChainTo(k, h) == [] <==> Head(v.ChainTo(k, h)) == 0)
    ensures forall i | Head(v.ChainTo(k, h)) < i <= k :: v.BucketOf(i) != h
  {
    ChainIsComplete(v.spool, v.patt, v.m, false, k, h);
    var c := v.ChainTo(k, h);
    assert c != [] ==> c[0] in c;
    forall i | Head(c) < i <= k
      ensures v.BucketOf(i) != h
    {
      assert i !in c;
    }
  }

  /** The entry of the pattern at the head of a chain links to the rest of the chain. */
  lemma LinkAt(v: Image, k: nat, h: nat)
    requires v.Ready() && k <= v.num && v.ChainTo(k, h) != []
    ensures var p := v.ChainTo(k, h)[0];
            1 <= p <= k && v.table[p - 1] == PatList(p, Head(v.ChainTo(p - 1, h)))
  {
    ChainIsComplete(v.spool, v.patt, v.m, false, k, h);
    var c := v.ChainTo(k, h);
    assert c[0] in c;
    assert v.table[c[0] - 1] == LinkOf(v.spool, v.patt, v.m, false, c[0], 0);
  }

  /** The only entry of an empty bucket has index 0, which points at pattern 1 with length 0.
      If that text matched, pattern 1 would be in the bucket. */
  lemma EmptyBucketMatchesNothing(v: Image, text: seq<byte>, s: nat)
    requires v.Ready() && v.num >= 1
    requires FoldMatch(text, s, v.spool, v.patt[0], v.m)
    ensures v.hash[Bucket(text, s, v.m, false)] != 0
  {
    MatchInBucket(v, text, 1, s);
    HeadBelow(v, v.num, Bucket(text, s, v.m, false));
  }

  /** Entry `i` was compared over `j` bytes; the test of monkey1 decides whether a pattern is found. */
  lemma TestIsExact(v: Image, text: seq<byte>, i: nat, s: nat, j: nat)
    requires v.Ready() && v.num >= 1 && i <= v.num && s + v.m <= |text|
    requires i == 0 ==> v.hash[Bucket(text, s, v.m, false)] == 0
    requires FoldMatch(text, s, v.spool, v.patt[i], j)
    requires forall n: nat :: FoldMatch(text, s, v.spool, v.patt[i], n) ==> n <= j
    ensures v.FoundAt(text, i, s) <==> j > v.m - 1 && v.patLen[i] <= j
  {
    if j >= v.m {
      ShorterMatch(text, s, v.spool, v.patt[i], j, v.m);
      if i == 0 {
        EmptyBucketMatchesNothing(v, text, s);
      }
    }
    if j >= v.Need(i) {
      ShorterMatch(text, s, v.spool, v.patt[i], j, v.Need(i));
    }
  }

  /** The walk from the head of any bucket through `next` visits exactly the patterns whose prefix
      falls into it, each once, by falling number - so it ends. */
  lemma BucketWalk(v: Image, h: nat)
    requires v.Ready() && h < MAXHASH
    ensures var c := v.ChainTo(v.num, h);
            && IsWalk(v.table, v.hash[h], c)
            && (forall i :: i in c <==> 1 <= i <= v.num && v.BucketOf(i) == h)
            && (forall a, b | 0 <= a < b < |c| :: c[a] > c[b])
  {
    WalkIsChain(v.table, v.spool, v.patt, v.m, false, v.num, h);
    ChainIsComplete(v.spool, v.patt, v.m, false, v.num, h);
  }

  // ---- the walk over a bucket ---------------------------------------------------------

  /** The walk over bucket `h` stands at slot `p`, -1 for a null pointer, and has only patterns
      up to `k` before it; those beyond are not found at `s`. */
  ghost predicate Walking(v: Image, text: seq<byte>, s: int, h: nat, p: int, k: nat)
    requires v.Ready() && h < MAXHASH
  {
    && k <= v.num
    && (if p == -1 then v.ChainTo(k, h) == []
        else p == Head(v.ChainTo(k, h)) && (p == 0 ==> v.hash[h] == 0))
    && forall i | k < i <= v.num && v.BucketOf(i) == h :: !v.FoundAt(text, i, s)
  }

  /** The slot after `p`: -1 for a null pointer. */
  ghost function After(v: Image, p: nat): int
    requires p <= |v.table|
  {
    if p == 0 || v.table[p - 1].next == 0 then -1 else v.table[p - 1].next
  }

  lemma WalkStarts(v: Image, text: seq<byte>, s: int, h: nat)
    requires v.Ready() && h < MAXHASH
    ensures h < |v.hash| && Walking(v, text, s, h, v.hash[h], v.num)
  {
    HeadBelow(v, v.num, h);
  }

  /** What the code reads at slot `p` is the entry and the way on. */
  lemma EntryAt(img: PatternImage, p: nat)
    requires img.Valid() && p <= img.numPat && (p > 0 ==> img.View().table[p - 1].index == p)
    ensures img.Slot(p).index == p
    ensures After(img.View(), p) == if img.Slot(p).next == 0 then -1 else img.Slot(p).next
  {
    hide ShiftsExact, Chained;
  }

  /** The slot is the empty bucket's or that of a pattern; the next one has a smaller number. */
  lemma WalkStands(v: Image, text: seq<byte>, s: int, h: nat, p: nat, k: nat)
    requires v.Ready() && h < MAXHASH && Walking(v, text, s, h, p, k)
    ensures p <= k <= v.num && (p == 0 ==> v.hash[h] == 0) && (p > 0 ==> v.table[p - 1].index == p)
    ensures -1 <= After(v, p) < p
  {
    HeadBelow(v, k, h);
    if p > 0 {
      LinkAt(v, k, h);
      HeadBelow(v, p - 1, h);
    }
  }

  /** When the pattern at hand is not found, the rest of the chain remains. */
  lemma WalkGoesOn(v: Image, text: seq<byte>, s: int, h: nat, p: nat, k: nat)
    requires v.Ready() && h < MAXHASH && p <= |v.table|
    requires Walking(v, text, s, h, p, k) && !v.FoundAt(text, p, s)
    ensures Walking(v, text, s, h, After(v, p), if p == 0 then k else p - 1)
  {
    HeadBelow(v, k, h);
    if p > 0 {
      LinkAt(v, k, h);
      HeadBelow(v, p - 1, h);
    }
  }

  /** When the walk is over, no pattern is found: one outside the bucket cannot be. */
  lemma WalkEnds(v: Image, text: seq<byte>, s: nat, k: nat)
    requires v.Ready() && s + v.m <= |text|
    requires Walking(v, text, s, Bucket(text, s, v.m, false), -1, k)
    ensures !v.FoundHere(text, s)
  {
    forall i: int
      ensures !v.FoundAt(text, i, s)
    {
      if v.FoundAt(text, i, s) {
        FoundInBucket(v, text, i, s);
        HeadBelow(v, k, Bucket(text, s, v.m, false));
      }
    }
  }

  lemma FoundInBucket(v: Image, text: seq<byte>, i: int, s: nat)
    requires v.Ready() && v.FoundAt(text, i, s)
    ensures s + v.m <= |text| && v.BucketOf(i) == Bucket(text, s, v.m, false)
  {
    ShorterMatch(text, s, v.spool, v.patt[i], v.Need(i), v.m);
    SameHash(text, s, v.spool, v.patt[i], 0, v.m, false);
  }

  // ---- the search -------------------------------------------------------------------------

  /** The bucket of the window that ends at `t`, from the `tr1` table. */
  method WindowBucket(img: PatternImage, text: array<byte>, t: nat) returns (h: nat)
    requires img.Sized() && img.FoldTables()
    requires 1 <= img.pSize <= t + 1 <= text.Length
    ensures h == Bucket(text[..], t + 1 - img.pSize, img.pSize, false)
  {
    h := 0;
    var m := img.pSize;
    for i := 0 to m
      invariant h == HashFrom(text[..], t + 1 - m, m - i, m, false)
    {
      assert text[..][t + 1 - m + (m - i - 1)] == text[t - i];
      h := (h * 16 + img.tr1[text[t - i]]) % TWO_32;
    }
    h := h % MAXHASH;
  }

  /** The hash of the block that ends at `t`, from the `tr1` table. */
  method WindowBlock(img: PatternImage, text: array<byte>, t: nat) returns (h: nat)
    requires img.Sized() && img.FoldTables()
    requires FirstBlock(img.long) <= t < text.Length
    ensures h == Block(text[..], t, img.long) < MAXMEMBER1
  {
    h := img.tr1[text[t]];
    h := h * 16 + img.tr1[text[t - 1]];
    if img.long {
      h := h * 16 + img.tr1[text[t - 2]];
    }
  }

  /** The verification loop: how far the spool at `o` and the text at `s` agree up to case.
      Where the C loop would run past the end of the spool or of the text, it stops. */
  method Agreement(img: PatternImage, text: array<byte>, o: nat, s: nat) returns (j: nat)
    requires img.Sized() && img.FoldTables()
    requires o <= img.spool.Length && s <= text.Length
    ensures FoldMatch(text[..], s, img.spool[..], o, j)
    ensures forall n: nat :: FoldMatch(text[..], s, img.spool[..], o, n) ==> n <= j
  {
    j := 0;
    while o + j < img.spool.Length && s + j < text.Length && img.tr[img.spool[o + j]] == img.tr[text[s + j]]
      invariant FoldMatch(text[..], s, img.spool[..], o, j)
      decreases text.Length - j
    {
      j := j + 1;
    }
    forall n: nat | FoldMatch(text[..], s, img.spool[..], o, n)
      ensures n <= j
    {
      if n > j {
        MatchGoesOn(text[..], s, img.spool[..], o, j, n);
      }
    }
  }

  /** Compares the text of entry `i` with the window at `qx`. */
  method CheckEntry(img: PatternImage, text: array<byte>, i: nat, qx: nat, ghost h: nat) returns (hit: bool)
    requires img.Valid() && 1 <= img.numPat && i <= img.numPat
    requires qx + img.pSize <= text.Length
    requires h == Bucket(text[..], qx, img.pSize, false) && (i == 0 ==> img.hash[h] == 0)
    ensures hit <==> img.View().FoundAt(text[..], i, qx)
  {
    var j := Agreement(img, text, img.patt[i], qx);
    TestIsExact(img.View(), text[..], i, qx, j);
    hit := j > img.pSize - 1 && img.patLen[i] <= j;
  }

  /** The inner loop of monkey1: walks the bucket of the window that ends at `t`. */
  method WalkBucket(img: PatternImage, text: array<byte>, t: nat) returns (matched: bool)
    requires img.Valid() && img.numPat >= 1
    requires img.pSize <= t + 1 <= text.Length
    ensures matched <==> img.View().FoundHere(text[..], t + 1 - img.pSize)
  {
    hide ShiftsExact, Chained, Walking, After, PatternImage.Slot;
    ghost var v, w := img.View(), text[..];
    var h := WindowBucket(img, text, t);
    var qx := t + 1 - img.pSize;
    var p: int := img.hash[h];
    ghost var k: nat := v.num;
    assert v.hash[h] == p;
    WalkStarts(v, w, qx, h);
    matched := false;
    while p != -1 && !matched
      invariant p >= -1
      invariant if matched then v.FoundHere(w, qx) else Walking(v, w, qx, h, p, k)
      decreases p + 1, !matched
    {
      WalkStands(v, w, qx, h, p, k);
      EntryAt(img, p);
      var patIndex, next := img.Slot(p).index, img.Slot(p).next;
      matched := CheckEntry(img, text, patIndex, qx, h);
      if !matched {
        WalkGoesOn(v, w, qx, h, p, k);
        k := if p == 0 then k else p - 1;
        p := if next == 0 then -1 else next;
      }
    }
    if !matched {
      WalkEnds(v, w, qx, k);
    }
  }

  /** The windows that a shift jumps over hold no pattern. */
  lemma SkippedWindows(v: Image, text: seq<byte>, t: int, d: int)
    requires v.Ready() && v.m - 1 <= t < |text|
    requires 0 <= d < v.shift[Block(text, t, v.long)]
    ensures !v.FoundHere(text, t + d - (v.m - 1))
  {
    var s := t + d - (v.m - 1);
    forall i: int
      ensures !v.FoundAt(text, i, s)
    {
      if v.FoundAt(text, i, s) {
        ShorterMatch(text, s, v.spool, v.patt[i], v.Need(i), v.m);
        SkipIsSafe(text, t, d, i, v.shift, v.spool, v.patt, v.m, v.long, v.num);
      }
    }
  }

  lemma AllSkipped(v: Image, text: seq<byte>, t: int)
    requires v.Ready() && v.m - 1 <= t < |text|
    ensures forall s | t - (v.m - 1) <= s < t - (v.m - 1) + v.shift[Block(text, t, v.long)] :: !v.FoundHere(text, s)
  {
    hide Chained;
    forall s | t - (v.m - 1) <= s < t - (v.m - 1) + v.shift[Block(text, t, v.long)]
      ensures !v.FoundHere(text, s)
    {
      SkippedWindows(v, text, t, s - (t - (v.m - 1)));
    }
  }

  /** With no pattern at all every shift is positive. */
  lemma EmptyListSkips(v: Image, h: nat)
    requires v.Ready() && v.num == 0 && h < MAXMEMBER1
    ensures v.shift[h] > 0
  {
    assert IsShift(v.shift[h], h, v.spool, v.patt, v.m, v.long, 0, v.m);
    assert forall j, i | EndsBlock(v.spool, v.patt, v.m, v.long, j, i, h) :: !Entered(j, i, 0, v.m);
  }

  /** The matcher's counter is a global of the C file, shared by all calls. */
  class Matcher {
    var numOfMatched: nat

    /** default_setting */
    constructor ()
      ensures numOfMatched == 0
    {
      numOfMatched := 0;
    }

    /** monkey1 under the default settings: counts one match and returns at the first. */
    method Monkey1(img: PatternImage, text: array<byte>, start: nat, end: int)
      requires img.Valid() && end < text.Length
      modifies this
      ensures numOfMatched == old(numOfMatched) + if img.View().Found(text[..], start, end) then 1 else 0
    {
      hide ShiftsExact, Chained;
      ghost var v, w := img.View(), text[..];
      var m1 := img.pSize - 1;
      var t := start + m1;
      while t <= end
        invariant start + m1 <= t
        invariant forall s | start <= s && s + m1 < t :: !v.FoundHere(w, s)
        invariant numOfMatched == old(numOfMatched)
        decreases end - t
      {
        var h := WindowBlock(img, text, t);
        var shift := img.shift1[h];
        assert shift == v.shift[Block(w, t, v.long)];
        if shift == 0 {
          if v.num == 0 {
            EmptyListSkips(v, h);
          }
          var matched := WalkBucket(img, text, t);
          if matched {
            assert v.FoundHere(w, t - m1);
            numOfMatched := numOfMatched + 1;
            return;
          }
          shift := 1;
        } else {
          AllSkipped(v, w, t);
        }
        t := t + shift;
      }
    }

    /** mgrep_str for an image without one-byte patterns. */
    method MgrepStr(text: array<byte>, num: nat, img: PatternImage) returns (matches: nat)
      requires img.Valid() && num <= text.Length
      modifies this
      ensures matches == numOfMatched
      ensures numOfMatched == old(numOfMatched) + if img.View().Found(text[..], 0, num - 1) then 1 else 0
    {
      Monkey1(img, text, 0, num - 1);
      matches := numOfMatched;
    }
  }

  // ---- agreement with naive search -----------------------------------------------------------

  /** What is asked of the word list: lengths that fit a byte, and a blank line only when the text
      holds no NUL, the one byte it would match. */
  ghost predicate PlainWords(file: seq<byte>, text: seq<byte>, start: int, end: int) {
    && (forall p | p in Patterns(file) :: |p| <= 255)
    && ([] in Patterns(file) ==> forall k | start <= k <= end && 0 <= k < |text| :: text[k] != 0)
    && end < |text|
  }

  /** And of the text: it ends at `end`, or a newline follows, which no word contains. */
  ghost predicate Plain(file: seq<byte>, text: seq<byte>, start: int, end: int) {
    && PlainWords(file, text, start, end)
    && (end + 1 < |text| && end + 1 >= 0 ==> text[end + 1] == NEWLINE)
  }

  /** Word `i` starts in a window of m bytes of text[start..end] and runs on past `end`. */
  ghost predicate Overrun(text: seq<byte>, start: int, end: int, pats: seq<seq<byte>>, m: int, i: int, s: int) {
    && 0 <= i < |pats|
    && start <= s && s + m - 1 <= end < s + |pats[i]| - 1
    && WordAt(text, s, pats[i])
  }

  ghost predicate RunsOver(text: seq<byte>, start: int, end: int, pats: seq<seq<byte>>, m: int) {
    exists i, s :: Overrun(text, start, end, pats, m, i, s)
  }

  /** Pattern i of the image is the i-th line up to its first NUL. */
  lemma PatternBytes(img: PatternImage, file: seq<byte>, i: nat)
    requires img.Holds(file) && 1 <= i <= img.numPat
    ensures var p := Patterns(file)[i - 1];
            && img.patt[i] + |p| < img.spool.Length
            && (forall k | img.patt[i] <= k < img.patt[i] + |p| :: img.spool[k] == p[k - img.patt[i]])
            && img.spool[img.patt[i] + |p|] == 0
            && (forall k | 0 <= k < |p| :: p[k] != NEWLINE)
            && img.patLen[i] == |p| % 256
            && (p != [] ==> img.pSize <= |p|)
  {
    hide Offset, Lines, CStr, IsLeastLength;
    var ls := Lines(file);
    var l, p := ls[i - 1], Patterns(file)[i - 1];
    assert LineInPlace(img.spool[..], ls, i - 1);
    assert img.patt[..][i] == Offset(ls, i - 1);
    LinesRejoin(file);
    CutLine(l);
    PrefixAt(img.spool[..], img.patt[i], l, |p|);
    LeastIsLeast(img.pSize, Patterns(file), img.numPat, i);
  }

  lemma CutLine(l: seq<byte>)
    requires NEWLINE !in l
    ensures |CStr(l)| <= |l| && CStr(l) == l[..|CStr(l)|]
    ensures |CStr(l)| < |l| ==> l[|CStr(l)|] == 0
    ensures forall k | 0 <= k < |CStr(l)| :: CStr(l)[k] != NEWLINE
  {
    assert forall k | 0 <= k < |l| :: l[k] in l;
  }

  lemma PrefixAt(spool: seq<byte>, o: nat, l: seq<byte>, n: nat)
    requires LineAt(spool, o, l) && n <= |l| && (n < |l| ==> l[n] == 0)
    ensures o + n < |spool| && spool[o + n] == 0
    ensures forall k | o <= k < o + n :: spool[k] == l[..n][k - o]
  {
  }

  lemma LeastIsLeast(m: nat, ps: seq<seq<byte>>, n: nat, i: int)
    requires 1 <= i <= n <= |ps| && IsLeastLength(m, ps, n)
    ensures ps[i - 1] != [] ==> m <= |ps[i - 1]|
  {
  }

  /** A pattern that is found occurs inside the text or runs over its end. */
  lemma FoundOccurs(img: PatternImage, file: seq<byte>, text: seq<byte>, start: int, end: int, i: int, s: int)
    requires img.Compiled(file) && PlainWords(file, text, start, end)
    requires start <= s && s + img.pSize - 1 <= end && img.View().FoundAt(text, i, s)
    ensures Occurrence(text, start, end, Patterns(file), i - 1, s)
      || Overrun(text, start, end, Patterns(file), img.pSize, i - 1, s)
  {
    hide Lines, CStr, Offset, Chained;
    PatternBytes(img, file, i);
    var p, o := Patterns(file)[i - 1], img.patt[i];
    assert p in Patterns(file);
    if p == [] {
      MatchGoesOn(text, s, img.spool[..], o, 0, img.View().Need(i));
    } else {
      forall k | s <= k < s + |p|
        ensures Fold(text[k]) == Fold(p[0 + (k - s)])
      {
        assert Fold(text[k]) == Fold(img.spool[..][o + (k - s)]);
      }
      MatchIsWord(text, s, p);
    }
  }

  /** A word that matches in full from a window inside the text is found. */
  lemma MatchIsFound(img: PatternImage, file: seq<byte>, text: seq<byte>, start: int, end: int, i: int, s: int)
    requires img.Compiled(file) && PlainWords(file, text, start, end)
    requires 0 <= i < |Patterns(file)| && Patterns(file)[i] != []
    requires WordAt(text, s, Patterns(file)[i])
    ensures img.pSize <= |Patterns(file)[i]| && img.View().FoundAt(text, i + 1, s)
  {
    hide Lines, CStr, Offset, Patterns, Fold, IsLeastLength, ShiftsExact, WordAt;
    PatternBytes(img, file, i + 1);
    var p := Patterns(file)[i];
    assert p in Patterns(file);
    MatchIsWord(text, s, p);
    forall k | s <= k < s + |p|
      ensures Fold(text[k]) == Fold(img.spool[..][img.patt[i + 1] + (k - s)])
    {
      assert Fold(text[k]) == Fold(p[0 + (k - s)]);
    }
  }

  /** What the search finds, whatever follows the text: an occurrence, or a word that runs over
      its end. So it agrees with naive search exactly when no word runs over or one occurs anyway. */
  lemma SearchIsExactly(img: PatternImage, file: seq<byte>, text: seq<byte>, start: int, end: int)
    requires img.Compiled(file) && PlainWords(file, text, start, end)
    ensures img.View().Found(text, start, end)
      <==> Naive(text, start, end, Patterns(file)) || RunsOver(text, start, end, Patterns(file), img.pSize)
    ensures img.View().Found(text, start, end) <==>
      exists i, s ::
        && 0 <= i < |Patterns(file)| && Patterns(file)[i] != []
        && start <= s && s + img.pSize - 1 <= end && WordAt(text, s, Patterns(file)[i])
  {
    hide Patterns, FoldMatch, WordAt, PatternImage.Compiled, PlainWords, Image.FoundAt;
    if img.View().Found(text, start, end) {
      var s :| start <= s && s + img.pSize - 1 <= end && img.View().FoundHere(text, s);
      var i :| img.View().FoundAt(text, i, s);
      FoundOccurs(img, file, text, start, end, i, s);
    }
    if Naive(text, start, end, Patterns(file)) {
      var i, s :| Occurrence(text, start, end, Patterns(file), i, s);
      MatchIsFound(img, file, text, start, end, i, s);
      assert img.View().FoundHere(text, s);
    }
    if RunsOver(text, start, end, Patterns(file), img.pSize) {
      var i, s :| Overrun(text, start, end, Patterns(file), img.pSize, i, s);
      SizeIsPositive(img, file);
      MatchIsFound(img, file, text, start, end, i, s);
      assert img.View().FoundHere(text, s);
    }
    WindowsOfWords(img, file, text, start, end);
  }

  /** Occurrences and overruns, spelt out: a word that is not empty starts in a window of the text. */
  lemma WindowsOfWords(img: PatternImage, file: seq<byte>, text: seq<byte>, start: int, end: int)
    requires img.Compiled(file)
    ensures Naive(text, start, end, Patterns(file)) || RunsOver(text, start, end, Patterns(file), img.pSize) <==>
      exists i, s ::
        && 0 <= i < |Patterns(file)| && Patterns(file)[i] != []
        && start <= s && s + img.pSize - 1 <= end && WordAt(text, s, Patterns(file)[i])
  {
    hide Patterns, WordAt;
    var ps, m := Patterns(file), img.pSize;
    WordsAreNoShorter(img, file);
    if i, s :| 0 <= i < |ps| && ps[i] != [] && start <= s && s + m - 1 <= end && WordAt(text, s, ps[i]) {
      if s + |ps[i]| - 1 <= end {
        assert Occurrence(text, start, end, ps, i, s);
      } else {
        assert Overrun(text, start, end, ps, m, i, s);
      }
    }
  }

  lemma WordsAreNoShorter(img: PatternImage, file: seq<byte>)
    requires img.Compiled(file)
    ensures img.pSize >= 1
    ensures forall i | 0 <= i < |Patterns(file)| && Patterns(file)[i] != [] :: img.pSize <= |Patterns(file)[i]|
  {
    hide ShiftsExact, Chained;
  }

  lemma SizeIsPositive(img: PatternImage, file: seq<byte>)
    requires img.Compiled(file)
    ensures img.pSize >= 1
  {
  }

  /** The fast search refines naive search over all positions and patterns. */
  lemma SearchIsNaive(img: PatternImage, file: seq<byte>, text: seq<byte>, start: int, end: int)
    requires img.Compiled(file) && Plain(file, text, start, end)
    ensures img.View().Found(text, start, end) <==> Naive(text, start, end, Patterns(file))
    ensures img.View().Found(text, start, end) <==>
      exists i, s ::
        && 0 <= i < |Patterns(file)| && Patterns(file)[i] != []
        && start <= s && s + |Patterns(file)[i]| - 1 <= end && WordAt(text, s, Patterns(file)[i])
  {
    hide Patterns, PatternImage.Compiled;
    NaiveIsWordSearch(text, start, end, Patterns(file));
    SearchIsExactly(img, file, text, start, end);
    forall i, s
      ensures !Overrun(text, start, end, Patterns(file), img.pSize, i, s)
    {
      if Overrun(text, start, end, Patterns(file), img.pSize, i, s) {
        var p := Patterns(file)[i];
        assert SameUpToCase(text[s + (end + 1 - s)], p[end + 1 - s]);
        NoNewline(img, file, i);
      }
    }
  }

  lemma NoNewline(img: PatternImage, file: seq<byte>, i: nat)
    requires img.Compiled(file) && i < |Patterns(file)|
    ensures img.pSize >= 1 && forall k | 0 <= k < |Patterns(file)[i]| :: Patterns(file)[i][k] != NEWLINE
  {
    PatternBytes(img, file, i + 1);
  }
}
