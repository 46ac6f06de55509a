/** What the tables of the multi-pattern matcher must hold, and what a match is. */
module MgrepSpec {
  import opened CBytes

  const MAXPAT := 256
  const MAXSYM := 256
  const MAXMEMBER1 := 4096
  const MAXPATFILE := 2600
  const MAXHASH := 512
  const MAX_NUM := 200
  const SPOOL_SIZE := MAXPATFILE + 2 * MAX_NUM + MAXPAT

  // ---- case folding and matching -----------------------------------------

  /** The `tr` table with NOUPPER set: upper-case ASCII letters become lower-case ones. */
  function Fold(c: byte): byte {
    if 'A' as int <= c <= 'Z' as int then c + ('a' as int - 'A' as int) else c
  }

  /** Letter case does not reach the low four bits. */
  lemma CaseKeepsLowBits(c: byte)
    ensures Fold(c) % 16 == c % 16
  {
  }

  /** `n` bytes of `text` at `s` equal `n` bytes of `pat` at `o` up to letter case. */
  ghost predicate FoldMatch(text: seq<byte>, s: int, pat: seq<byte>, o: int, n: int) {
    && 0 <= s && 0 <= n && s + n <= |text|
    && 0 <= o && o + n <= |pat|
    && forall k | s <= k < s + n :: Fold(text[k]) == Fold(pat[o + (k - s)])
  }

  /** The same letter up to case, or the same byte. */
  predicate SameUpToCase(a: byte, b: byte) {
    a == b || (65 <= a <= 90 && b == a + 32) || (65 <= b <= 90 && a == b + 32)
  }

  /** The tables compare letters up to ASCII case and everything else exactly. */
  lemma FoldingIgnoresCase(a: byte, b: byte)
    ensures Fold(a) == Fold(b) <==> a == b || (65 <= a <= 90 && b == a + 32) || (65 <= b <= 90 && a == b + 32)
  {
  }

  /** The word stands in the text from `s` on, up to letter case. */
  predicate WordAt(text: seq<byte>, s: int, word: seq<byte>) {
    && 0 <= s && s + |word| <= |text|
    && forall k | 0 <= k < |word| :: SameUpToCase(text[s + k], word[k])
  }

  /** Matching under the fold table is equality up to case. */
  lemma MatchIsWord(text: seq<byte>, s: int, word: seq<byte>)
    ensures FoldMatch(text, s, word, 0, |word|) <==> WordAt(text, s, word)
  {
    hide Fold;
    if 0 <= s && s + |word| <= |text| {
      forall k | 0 <= k < |word|
        ensures Fold(text[s + k]) == Fold(word[k]) <==> SameUpToCase(text[s + k], word[k])
      {
        FoldingIgnoresCase(text[s + k], word[k]);
      }
      if FoldMatch(text, s, word, 0, |word|) {
        forall k | 0 <= k < |word| ensures SameUpToCase(text[s + k], word[k]) {
          assert Fold(text[s + k]) == Fold(word[0 + (s + k - s)]);
        }
      }
      if WordAt(text, s, word) {
        forall j | s <= j < s + |word| ensures Fold(text[j]) == Fold(word[0 + (j - s)]) {
          assert SameUpToCase(text[s + (j - s)], word[j - s]);
        }
      }
    }
  }

  /** Naive search: some pattern occurs, ignoring case, wholly inside text[start..end]. */
  ghost predicate Naive(text: seq<byte>, start: int, end: int, pats: seq<seq<byte>>) {
    exists i, s :: Occurrence(text, start, end, pats, i, s)
  }

  ghost predicate Occurrence(text: seq<byte>, start: int, end: int, pats: seq<seq<byte>>, i: int, s: int) {
    && 0 <= i < |pats|
    && pats[i] != []
    && start <= s && s + |pats[i]| <= end + 1
    && WordAt(text, s, pats[i])
  }

  /** Naive search, spelt out: a word that is not empty stands somewhere in text[start..end]. */
  lemma NaiveIsWordSearch(text: seq<byte>, start: int, end: int, pats: seq<seq<byte>>)
    ensures Naive(text, start, end, pats) <==>
      exists i, s ::
        && 0 <= i < |pats| && pats[i] != []
        && start <= s && s + |pats[i]| - 1 <= end && WordAt(text, s, pats[i])
  {
    if i, s :| 0 <= i < |pats| && pats[i] != [] && start <= s && s + |pats[i]| - 1 <= end && WordAt(text, s, pats[i]) {
      assert Occurrence(text, start, end, pats, i, s);
    }
  }

  /** "via" occurs in "VIA" and not in "VIB". */
  lemma CaseDoesNotMatter()
    ensures Naive([86, 73, 65], 0, 2, [[118, 105, 97]]) && !Naive([86, 73, 66], 0, 2, [[118, 105, 97]])
  {
    var via: seq<byte>, text: seq<byte>, other: seq<byte> := [118, 105, 97], [86, 73, 65], [86, 73, 66];
    assert Occurrence(text, 0, 2, [via], 0, 0);
    assert !SameUpToCase(other[0 + 2], via[2]);
  }

  // ---- the word list -------------------------------------------------------

  /** Position of the first newline of `file` from `i` on, or |file| when there is none. */
  function LineEnd(file: seq<byte>, i: nat): (n: nat)
    requires i <= |file|
    ensures i <= n <= |file|
    ensures forall k | i <= k < n :: file[k] != NEWLINE
    ensures n < |file| ==> file[n] == NEWLINE
    decreases |file| - i
  {
    if i == |file| || file[i] == NEWLINE then i else LineEnd(file, i + 1)
  }

  function LinesFrom(file: seq<byte>, i: nat): seq<seq<byte>>
    decreases |file| - i
  {
    if i >= |file| then []
    else
      var n := LineEnd(file, i);
      [file[i..n]] + LinesFrom(file, n + 1)
  }

  /** The newline-separated lines of a word list; a final newline adds no empty line. */
  function Lines(file: seq<byte>): seq<seq<byte>> {
    LinesFrom(file, 0)
  }

  /** Every line followed by the byte `c`. */
  function Joined(ls: seq<seq<byte>>, c: byte): seq<byte> {
    if ls == [] then [] else ls[0] + [c] + Joined(ls[1..], c)
  }

  /** Splitting loses nothing: joining the lines with newlines gives the word list back,
      up to a final newline that the file may lack, and no line holds a newline. */
  lemma LinesRejoin(file: seq<byte>)
    ensures Joined(Lines(file), NEWLINE) ==
            if file == [] || file[|file| - 1] == NEWLINE then file else file + [NEWLINE]
    ensures forall l | l in Lines(file) :: NEWLINE !in l
  {
    LinesFromRejoin(file, 0);
    NoNewlineInLines(file, 0);
    assert file[0..] == file;
  }

  /** The rest of a word list from `i`, its last line completed. */
  function Rest(file: seq<byte>, i: nat): seq<byte>
    requires i <= |file|
  {
    if i == |file| || file[|file| - 1] == NEWLINE then file[i..] else file[i..] + [NEWLINE]
  }

  lemma RestSplits(file: seq<byte>, i: nat, n: nat)
    requires i <= n < |file| && file[n] == NEWLINE
    ensures Rest(file, i) == file[i..n] + [NEWLINE] + Rest(file, n + 1)
  {
    assert file[i..] == file[i..n] + [NEWLINE] + file[n + 1..];
  }

  lemma LastRest(file: seq<byte>, i: nat)
    requires i < |file| && file[|file| - 1] != NEWLINE
    ensures Rest(file, i) == file[i..|file|] + [NEWLINE] + []
  {
  }

  lemma JoinedNone()
    ensures Joined([], NEWLINE) == []
  {
  }

  lemma JoinedCons(l: seq<byte>, rest: seq<seq<byte>>)
    ensures Joined([l] + rest, NEWLINE) == l + [NEWLINE] + Joined(rest, NEWLINE)
  {
    assert ([l] + rest)[1..] == rest;
  }

  lemma {:induction false} LinesFromRejoin(file: seq<byte>, i: nat)
    requires i <= |file|
    ensures Joined(LinesFrom(file, i), NEWLINE) == Rest(file, i)
    decreases |file| - i
  {
    hide Joined, LineEnd, Rest;
    JoinedNone();
    if i < |file| {
      var n := LineEnd(file, i);
      var line, rest := file[i..n], LinesFrom(file, n + 1);
      assert LinesFrom(file, i) == [line] + rest;
      JoinedCons(line, rest);
      if n < |file| {
        LinesFromRejoin(file, n + 1);
        RestSplits(file, i, n);
      } else {
        LastRest(file, i);
      }
    } else {
      NothingLeft(file);
    }
  }

  lemma NothingLeft(file: seq<byte>)
    ensures Rest(file, |file|) == []
  {
  }

  lemma {:induction false} NoNewlineInLines(file: seq<byte>, i: nat)
    ensures forall l | l in LinesFrom(file, i) :: NEWLINE !in l
    decreases |file| - i
  {
    if i < |file| {
      NoNewlineInLines(file, LineEnd(file, i) + 1);
    }
  }

  lemma {:induction false} LineEndIs(file: seq<byte>, i: nat, n: nat)
    requires i <= n <= |file|
    requires forall k | i <= k < n :: file[k] != NEWLINE
    requires n < |file| ==> file[n] == NEWLINE
    ensures LineEnd(file, i) == n
    decreases n - i
  {
    if i < n {
      LineEndIs(file, i + 1, n);
    }
  }

  /** And joining loses nothing either: words without a newline, each ended by one, are the lines. */
  lemma LinesOfJoined(words: seq<seq<byte>>)
    requires forall w | w in words :: NEWLINE !in w
    ensures Lines(Joined(words, NEWLINE)) == words
  {
    assert [] + Joined(words, NEWLINE) == Joined(words, NEWLINE);
    LinesBehind([], words);
  }

  lemma {:induction false} LinesBehind(front: seq<byte>, words: seq<seq<byte>>)
    requires forall w | w in words :: NEWLINE !in w
    ensures LinesFrom(front + Joined(words, NEWLINE), |front|) == words
    decreases |words|
  {
    hide Joined, LineEnd;
    if words == [] {
      JoinedNone();
    } else {
      var w, rest := words[0], Joined(words[1..], NEWLINE);
      var more := front + w + [NEWLINE];
      LinesBehind(more, words[1..]);
      LineBehind(front, w, rest);
      assert words == [w] + words[1..];
      JoinedCons(w, words[1..]);
      BehindFront(front, w, rest);
    }
  }

  lemma BehindFront(front: seq<byte>, w: seq<byte>, rest: seq<byte>)
    ensures front + (w + [NEWLINE] + rest) == front + w + [NEWLINE] + rest
  {
  }

  lemma LineBehind(front: seq<byte>, w: seq<byte>, rest: seq<byte>)
    requires NEWLINE !in w
    ensures var file, n := front + w + [NEWLINE] + rest, |front| + |w|;
      LineEnd(file, |front|) == n && file[|front|..n] == w
  {
    var file, n := front + w + [NEWLINE] + rest, |front| + |w|;
    Middle(front, w, rest);
    forall k | |front| <= k < n ensures file[k] != NEWLINE {
      assert file[k] == file[|front|..n][k - |front|] == w[k - |front|];
    }
    hide LineEnd;
    LineEndIs(file, |front|, n);
  }

  lemma Middle(front: seq<byte>, w: seq<byte>, rest: seq<byte>)
    ensures var file, n := front + w + [NEWLINE] + rest, |front| + |w|;
      file[|front|..n] == w && file[n] == NEWLINE
  {
  }

  /** Offset of line `j` (from 0) in the spool: each earlier line takes its length and a NUL. */
  function Offset(ls: seq<seq<byte>>, j: nat): nat
    requires j <= |ls|
  {
    if j == 0 then 0 else Offset(ls, j - 1) + |ls[j - 1]| + 1
  }

  lemma {:induction false} OffsetMonotone(ls: seq<seq<byte>>, i: nat, j: nat)
    requires i < j <= |ls|
    ensures Offset(ls, i) + |ls[i]| < Offset(ls, j)
    decreases j
  {
    if i < j - 1 {
      OffsetMonotone(ls, i, j - 1);
    }
  }

  lemma {:induction false} OffsetAppend(ls: seq<seq<byte>>, more: seq<seq<byte>>, j: nat)
    requires j <= |ls|
    ensures Offset(ls + more, j) == Offset(ls, j)
  {
    if j > 0 {
      OffsetAppend(ls, more, j - 1);
    }
  }

  /** Least length of a non-empty pattern among the first `n`, capped at MAXPAT: p_size. */
  ghost predicate IsLeastLength(m: nat, pats: seq<seq<byte>>, n: nat)
    requires n <= |pats|
  {
    && 1 <= m <= MAXPAT
    && (forall i | 0 <= i < n && pats[i] != [] :: m <= |pats[i]|)
    && (m == MAXPAT || exists i :: 0 <= i < n && |pats[i]| == m)
  }

  function LeastLength(pats: seq<seq<byte>>): (m: nat)
    ensures 1 <= m <= MAXPAT
  {
    if pats == [] then MAXPAT
    else
      var m := LeastLength(pats[1..]);
      if pats[0] != [] && |pats[0]| < m then |pats[0]| else m
  }

  lemma {:induction false} LeastLengthIsLeast(pats: seq<seq<byte>>)
    ensures IsLeastLength(LeastLength(pats), pats, |pats|)
  {
    if pats != [] {
      LeastLengthIsLeast(pats[1..]);
      assert forall i | 0 < i < |pats| :: pats[i] == pats[1..][i - 1];
    }
  }

  lemma LeastLengthIs(m: nat, pats: seq<seq<byte>>)
    requires IsLeastLength(m, pats, |pats|)
    ensures m == LeastLength(pats)
  {
    LeastLengthIsLeast(pats);
  }

  // ---- the skip table --------------------------------------------------------

  /** Hash of the two (or, for long word lists, three) bytes ending at w[i]. */
  function Block(w: seq<byte>, i: int, long: bool): (h: nat)
    requires (if long then 2 else 1) <= i < |w|
    ensures h < MAXMEMBER1
  {
    var h := (Fold(w[i]) % 16) * 16 + Fold(w[i - 1]) % 16;
    if long then h * 16 + Fold(w[i - 2]) % 16 else h
  }

  function FirstBlock(long: bool): nat {
    if long then 2 else 1
  }

  /** Position `i` of the m-byte prefix of pattern `j` ends a block that hashes to `h`. */
  ghost predicate EndsBlock(spool: seq<byte>, patt: seq<nat>, m: nat, long: bool, j: int, i: int, h: int) {
    && 1 <= j < |patt|
    && FirstBlock(long) <= i < m
    && patt[j] + m <= |spool|
    && Block(spool, patt[j] + i, long) == h
  }

  /** Pattern j, position i has been entered when patterns 1..k are complete and pattern
      k + 1 is done from its end down to position `from`. */
  predicate Entered(j: int, i: int, k: nat, from: int) {
    j <= k || (j == k + 1 && from <= i)
  }

  /** The initial entry, p_size - 2 stored in a byte. */
  function DefaultShift(m: nat): byte {
    (m - 2) % 256
  }

  /** `v` is the minimum of the default shift and of m - 1 - i over the entered positions
      whose block hashes to `h`. */
  ghost predicate IsShift(v: int, h: int, spool: seq<byte>, patt: seq<nat>, m: nat, long: bool, k: nat, from: int) {
    && v <= DefaultShift(m)
    && (forall j, i | EndsBlock(spool, patt, m, long, j, i, h) && Entered(j, i, k, from) :: v <= m - 1 - i)
    && (v == DefaultShift(m)
        || exists j, i :: EndsBlock(spool, patt, m, long, j, i, h) && Entered(j, i, k, from) && v == m - 1 - i)
  }

  ghost predicate ShiftsExact(shift: seq<byte>, spool: seq<byte>, patt: seq<nat>, m: nat, long: bool, k: nat,
                              from: int)
  {
    |shift| == MAXMEMBER1
    && forall h | 0 <= h < MAXMEMBER1 :: IsShift(shift[h], h, spool, patt, m, long, k, from)
  }

  /** Skip safety: with `t` the last byte of the current window, no window ending before
      t + SHIFT1[block at t] matches the m-byte prefix of any pattern. */
  lemma SkipIsSafe(text: seq<byte>, t: int, d: int, j: int, shift: seq<byte>, spool: seq<byte>, patt: seq<nat>,
                   m: nat, long: bool, k: nat)
    requires 2 <= m <= MAXPAT && (long ==> m > 2)
    requires ShiftsExact(shift, spool, patt, m, long, k, m)
    requires FirstBlock(long) <= t < |text|
    requires 1 <= j <= k < |patt|
    requires 0 <= d < shift[Block(text, t, long)]
    ensures !FoldMatch(text, t + d - (m - 1), spool, patt[j], m)
  {
    var h := Block(text, t, long);
    assert IsShift(shift[h], h, spool, patt, m, long, k, m);
    var s := t + d - (m - 1);
    if FoldMatch(text, s, spool, patt[j], m) {
      var i := m - 1 - d;
      assert Fold(text[t]) == Fold(spool[patt[j] + (t - s)]);
      assert Fold(text[t - 1]) == Fold(spool[patt[j] + (t - 1 - s)]);
      if long {
        assert Fold(text[t - 2]) == Fold(spool[patt[j] + (t - 2 - s)]);
      }
      assert EndsBlock(spool, patt, m, long, j, i, h) && Entered(j, i, k, m);
      assert false;
    }
  }

  // ---- buckets and chains ------------------------------------------------------

  /** The folded byte under the hash mask: 15, or 255 when some pattern is one byte long. */
  function Low(c: byte, short: bool): byte {
    if short then Fold(c) else Fold(c) % 16
  }

  /** The running 32-bit hash after positions m - 1 down to i of the m bytes at `o`;
      four bits of each folded byte, all eight when `short`. */
  function HashFrom(w: seq<byte>, o: nat, i: nat, m: nat, short: bool): (h: nat)
    requires o + m <= |w|
    ensures h < TWO_32
    decreases m - i
  {
    if i >= m then 0 else (HashFrom(w, o, i + 1, m, short) * 16 + Low(w[o + i], short)) % TWO_32
  }

  function Bucket(w: seq<byte>, o: nat, m: nat, short: bool): (h: nat)
    requires o + m <= |w|
    ensures h < MAXHASH
  {
    HashFrom(w, o, 0, m, short) % MAXHASH
  }

  /** A window that matches a prefix has the prefix's bucket, although the two hashes are
      computed by different loops over different tables. */
  lemma {:induction false} SameHash(text: seq<byte>, s: nat, spool: seq<byte>, o: nat, i: nat, m: nat, short: bool)
    requires i <= m
    requires FoldMatch(text, s, spool, o, m)
    ensures HashFrom(text, s, i, m, short) == HashFrom(spool, o, i, m, short)
    decreases m - i
  {
    if i < m {
      SameHash(text, s, spool, o, i + 1, m, short);
      assert Fold(text[s + i]) == Fold(spool[o + (s + i - s)]);
    }
  }

  /** Wrap-around at 32 bits is harmless: the bucket is made of the low four bits of the
      first two bytes and the lowest bit of the third. */
  lemma BucketIsThreeNibbles(w: seq<byte>, o: nat, m: nat)
    requires 3 <= m && o + m <= |w|
    ensures Bucket(w, o, m, false) == Fold(w[o]) % 16 + 16 * (Fold(w[o + 1]) % 16) + 256 * (Fold(w[o + 2]) % 16 % 2)
  {
    var h3 := HashFrom(w, o, 3, m, false);
    var h2 := HashFrom(w, o, 2, m, false);
    var h1 := HashFrom(w, o, 1, m, false);
    assert h2 == (h3 * 16 + Low(w[o + 2], false)) % TWO_32;
    assert h1 == (h2 * 16 + Low(w[o + 1], false)) % TWO_32;
    ThreeSteps(h3, Low(w[o + 2], false), Low(w[o + 1], false), Low(w[o], false));
  }

  lemma ThreeSteps(h3: nat, n2: nat, n1: nat, n0: nat)
    requires n0 < 16 && n1 < 16 && n2 < 16
    ensures var h2 := (h3 * 16 + n2) % TWO_32;
            var h1 := (h2 * 16 + n1) % TWO_32;
            (h1 * 16 + n0) % TWO_32 % MAXHASH == n0 + 16 * n1 + 256 * (n2 % 2)
  {
    ShiftIn(h3, n2);
    var h2 := (h3 * 16 + n2) % TWO_32;
    ShiftIn(h2, n1);
    ShiftIn((h2 * 16 + n1) % TWO_32, n0);
  }

  /** What survives of one shift-and-add step modulo 32 bits. */
  lemma ShiftIn(h: nat, n: nat)
    requires n < 16
    ensures var r := (h * 16 + n) % TWO_32;
            r % 2 == n % 2 && r % 32 == 16 * (h % 2) + n && r % 512 == 16 * (h % 32) + n
  {
    var x := h * 16 + n;
    ShiftParts(h / 32, h % 32, n, x / TWO_32, x % TWO_32);
    LowBit(h / 32, h % 32);
  }

  lemma LowBit(a: nat, b: nat)
    requires b < 32
    ensures (32 * a + b) % 2 == b % 2
  {
    Remainder2(32 * a + b, 16 * a + b / 2, b % 2);
  }

  lemma ShiftParts(a: nat, b: nat, n: nat, q: nat, r: nat)
    requires b < 32 && n < 16 && 16 * (32 * a + b) + n == TWO_32 * q + r
    ensures r % 2 == n % 2 && r % 32 == 16 * (b % 2) + n && r % 512 == 16 * b + n
  {
    var k := a - 0x80_0000 * q;
    Remainder512(r, k, 16 * b + n);
    Remainder32(r, 16 * k + b / 2, 16 * (b % 2) + n);
    Remainder2(r, 256 * k + 8 * b + n / 2, n % 2);
  }

  lemma Remainder512(r: nat, k: int, c: nat)
    requires r == 512 * k + c && c < 512
    ensures r % 512 == c
  {
  }

  lemma Remainder32(r: nat, k: int, c: nat)
    requires r == 32 * k + c && c < 32
    ensures r % 32 == c
  {
  }

  lemma Remainder2(r: nat, k: int, c: nat)
    requires r == 2 * k + c && c < 2
    ensures r % 2 == c
  {
  }

  /** Patterns 1..k whose m-byte prefix falls into bucket h, the latest first. */
  ghost function Chain(spool: seq<byte>, patt: seq<nat>, m: nat, short: bool, k: nat, h: nat): (c: seq<nat>)
    requires k < |patt|
    requires forall j | 1 <= j <= k :: patt[j] + m <= |spool|
  {
    if k == 0 then []
    else if Bucket(spool, patt[k], m, short) == h then [k] + Chain(spool, patt, m, short, k - 1, h)
    else Chain(spool, patt, m, short, k - 1, h)
  }

  /** Chain completeness: exactly the patterns of the bucket, each once, strictly decreasing. */
  lemma {:induction false} ChainIsComplete(spool: seq<byte>, patt: seq<nat>, m: nat, short: bool, k: nat, h: nat)
    requires k < |patt|
    requires forall j | 1 <= j <= k :: patt[j] + m <= |spool|
    ensures var c := Chain(spool, patt, m, short, k, h);
            && (forall j :: j in c <==> 1 <= j <= k && Bucket(spool, patt[j], m, short) == h)
            && (forall a, b | 0 <= a < b < |c| :: c[a] > c[b])
  {
    if k > 0 {
      ChainIsComplete(spool, patt, m, short, k - 1, h);
      var c' := Chain(spool, patt, m, short, k - 1, h);
      forall a | 0 <= a < |c'|
        ensures c'[a] < k
      {
        assert c'[a] in c';
      }
    }
  }

  /** An entry of the `hashtable` array. */
  datatype PatList = PatList(index: nat, next: nat)

  function Head(c: seq<nat>): nat {
    if c == [] then 0 else c[0]
  }

  /** Following `next` from slot number `head` visits exactly `visited`. */
  ghost predicate IsWalk(table: seq<PatList>, head: nat, visited: seq<nat>)
    decreases |visited|
  {
    if visited == [] then head == 0
    else
      && head == visited[0]
      && 1 <= head <= |table|
      && table[head - 1].index == head
      && IsWalk(table, table[head - 1].next, visited[1..])
  }

  /** Entries 1..k of the table link each pattern to the previous one of its bucket, the first
      one of a bucket to `bottom`. */
  ghost predicate Linked(table: seq<PatList>, spool: seq<byte>, patt: seq<nat>, m: nat, short: bool, k: nat,
                         bottom: nat)
    requires k < |patt|
    requires forall j | 1 <= j <= k :: patt[j] + m <= |spool|
  {
    k <= |table|
    && forall j | 1 <= j <= k :: table[j - 1] == LinkOf(spool, patt, m, short, j, bottom)
  }

  ghost predicate Heads(hash: seq<nat>, spool: seq<byte>, patt: seq<nat>, m: nat, short: bool, k: nat)
    requires k < |patt|
    requires forall j | 1 <= j <= k :: patt[j] + m <= |spool|
  {
    |hash| == MAXHASH
    && forall h | 0 <= h < MAXHASH :: hash[h] == Head(Chain(spool, patt, m, short, k, h))
  }

  function Below(c: seq<nat>, bottom: nat): nat {
    if c == [] then bottom else Head(c)
  }

  ghost function LinkOf(spool: seq<byte>, patt: seq<nat>, m: nat, short: bool, j: nat, bottom: nat): PatList
    requires 1 <= j < |patt|
    requires forall i | 1 <= i <= j :: patt[i] + m <= |spool|
  {
    PatList(j, Below(Chain(spool, patt, m, short, j - 1, Bucket(spool, patt[j], m, short)), bottom))
  }

  /** The walk from the head of a bucket is its chain, so it ends. */
  lemma {:induction false} WalkIsChain(table: seq<PatList>, spool: seq<byte>, patt: seq<nat>, m: nat, short: bool,
                                       k: nat, h: nat)
    requires k < |patt|
    requires forall j | 1 <= j <= k :: patt[j] + m <= |spool|
    requires Linked(table, spool, patt, m, short, k, 0)
    ensures IsWalk(table, Head(Chain(spool, patt, m, short, k, h)), Chain(spool, patt, m, short, k, h))
  {
    if k > 0 {
      WalkIsChain(table, spool, patt, m, short, k - 1, h);
      assert table[k - 1] == LinkOf(spool, patt, m, short, k, 0);
      var c := Chain(spool, patt, m, short, k, h);
      if c != [] && c[0] == k && Bucket(spool, patt[k], m, short) == h {
        assert c[1..] == Chain(spool, patt, m, short, k - 1, h);
      }
    }
  }

  /** `HASH` and `hashtable` hold the chains of patterns 1..k. */
  ghost predicate Chained(table: seq<PatList>, hash: seq<nat>, spool: seq<byte>, patt: seq<nat>, m: nat, short: bool,
                          k: nat, bottom: nat)
  {
    && k < |patt| && (forall j | 1 <= j <= k :: patt[j] + m <= |spool|)
    && Linked(table, spool, patt, m, short, k, bottom)
    && Heads(hash, spool, patt, m, short, k)
  }

  /** Putting pattern k in front of its bucket extends the chains. */
  lemma LinkExtends(table: seq<PatList>, hash: seq<nat>, spool: seq<byte>, patt: seq<nat>, m: nat, short: bool,
                    k: nat, b: nat, bottom: nat)
    requires 1 <= k < |patt| && k <= |table| && patt[k] + m <= |spool|
    requires Chained(table, hash, spool, patt, m, short, k - 1, bottom)
    requires b == Bucket(spool, patt[k], m, short)
    ensures Chained(table[k - 1 := PatList(k, if hash[b] == 0 then bottom else hash[b])], hash[b := k],
                    spool, patt, m, short, k, bottom)
    ensures hash[b] != 0 ==> 1 <= hash[b] < k && table[hash[b] - 1].index == hash[b]
  {
    hide Bucket;
    var c := Chain(spool, patt, m, short, k - 1, b);
    ChainIsComplete(spool, patt, m, short, k - 1, b);
    assert c != [] ==> c[0] in c;
    if hash[b] != 0 {
      assert table[hash[b] - 1] == LinkOf(spool, patt, m, short, hash[b], bottom);
    }
    var table' := table[k - 1 := PatList(k, if hash[b] == 0 then bottom else hash[b])];
    forall j | 1 <= j <= k
      ensures table'[j - 1] == LinkOf(spool, patt, m, short, j, bottom)
    {
      assert j < k ==> table[j - 1] == LinkOf(spool, patt, m, short, j, bottom);
    }
  }

  // ---- a compiled image, as a value ------------------------------------------------

  /** The contents of a pattern image; `num` is the number of patterns. */
  datatype Image = Image(long: bool, m: nat, num: nat, shift: seq<byte>, hash: seq<nat>, spool: seq<byte>,
                         patt: seq<nat>, patLen: seq<byte>, table: seq<PatList>)
  {
    /** Every pattern's m-byte prefix lies in the spool. */
    ghost predicate Fits() {
      && num < |patt| && num < |patLen| && num <= |table|
      && forall j | 0 <= j <= num :: patt[j] + m <= |spool|
    }

    /** What the search relies on: exact tables, no one-byte pattern, and an entry 0, read for
        an empty bucket, that points at the first pattern with length 0. */
    ghost predicate Ready() {
      && Fits()
      && 2 <= m <= MAXPAT && (long ==> m > 2)
      && patt[0] == 0 && patLen[0] == 0
      && (if num == 0 then m > 2 else patt[1] == 0)
      && ShiftsExact(shift, spool, patt, m, long, num, m)
      && Chained(table, hash, spool, patt, m, false, num, 0)
    }

    ghost function BucketOf(i: int): nat
      requires Fits() && 0 <= i <= num
    {
      Bucket(spool, patt[i], m, false)
    }

    /** The patterns up to `k` of bucket `h`. */
    ghost function ChainTo(k: nat, h: nat): seq<nat>
      requires Fits() && k <= num
    {
      Chain(spool, patt, m, false, k, h)
    }

    /** How many bytes of pattern `i` the search insists on: the stored length, at least p_size. */
    ghost function Need(i: nat): nat
      requires i < |patLen|
    {
      if m > patLen[i] then m else patLen[i]
    }

    /** The first Need(i) bytes of pattern `i` are found at `s`. */
    ghost predicate FoundAt(text: seq<byte>, i: int, s: int) {
      && 1 <= i <= num && i < |patt| && i < |patLen|
      && FoldMatch(text, s, spool, patt[i], Need(i))
    }

    /** Some pattern is found at `s`. */
    ghost predicate FoundHere(text: seq<byte>, s: int) {
      exists i :: FoundAt(text, i, s)
    }

    /** Some pattern is found at a window of m bytes that lies in text[start..end]. */
    ghost predicate Found(text: seq<byte>, start: int, end: int) {
      exists s :: start <= s && s + m - 1 <= end && FoundHere(text, s)
    }
  }
}
