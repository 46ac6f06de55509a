/** Where the matcher's promises end: exactly which word lists its chains serve, and what a search
    past the end of the text does. */
module MgrepLimits {
  import opened CBytes
  import opened MgrepSpec
  import opened MgrepImage
  import opened MgrepSearch

  // ---- entries that link to each other -------------------------------------------------------

  /** Entries 1..num have their own numbers and link down or to `bottom`; the others are zero. */
  ghost predicate Threaded(table: seq<PatList>, num: nat, bottom: nat) {
    && num <= |table|
    && forall k | 0 <= k < |table| ::
         if k < num then LinksDown(table[k], k + 1, bottom) else table[k] == PatList(0, 0)
  }

  predicate LinksDown(e: PatList, j: nat, bottom: nat) {
    e.index == j && (e.next == bottom || 1 <= e.next < j)
  }

  /** Some walk from slot `p` visits entries by their own numbers and ends. */
  ghost predicate Walks(table: seq<PatList>, p: nat) {
    exists visited :: IsWalk(table, p, visited)
  }

  /** The slots read from `p` on, up to a `next` of 0, all inside the table. */
  ghost predicate IsPath(table: seq<PatList>, p: nat, path: seq<nat>)
    decreases |path|
  {
    && path != [] && path[0] == p && 1 <= p <= |table|
    && if table[p - 1].next == 0 then |path| == 1 else IsPath(table, table[p - 1].next, path[1..])
  }

  /** Following `next` from slot `p` comes to an end inside the table. */
  ghost predicate Ends(table: seq<PatList>, p: nat) {
    exists path :: IsPath(table, p, path)
  }

  lemma {:induction false} WalkDown(table: seq<PatList>, num: nat, p: nat)
    requires Threaded(table, num, 0) && p <= num
    ensures Walks(table, p)
  {
    if p == 0 {
      assert IsWalk(table, 0, []);
    } else {
      WalkDown(table, num, table[p - 1].next);
      var rest :| IsWalk(table, table[p - 1].next, rest);
      assert ([p] + rest)[1..] == rest;
      assert IsWalk(table, p, [p] + rest);
    }
  }

  lemma {:induction false} NoWalk(table: seq<PatList>, num: nat, bottom: nat, p: nat, visited: seq<nat>)
    requires Threaded(table, num, bottom) && bottom != 0 && 1 <= p <= num
    ensures !IsWalk(table, p, visited)
    decreases |visited|
  {
    if visited != [] && visited[0] == p {
      var next := table[p - 1].next;
      if next <= num {
        NoWalk(table, num, bottom, next, visited[1..]);
      } else {
        assert next <= |table| ==> table[next - 1].index == 0;
      }
    }
  }

  lemma {:induction false} PathDown(table: seq<PatList>, num: nat, bottom: nat, p: nat)
    requires Threaded(table, num, bottom) && 1 <= p <= num && (bottom == 0 || num < bottom <= |table|)
    ensures Ends(table, p)
  {
    var next := table[p - 1].next;
    if next == 0 {
      assert IsPath(table, p, [p]);
    } else if next == bottom {
      assert table[bottom - 1].next == 0;
      assert [p, bottom][1..] == [bottom];
      assert IsPath(table, bottom, [bottom]);
      assert IsPath(table, p, [p, bottom]);
    } else {
      PathDown(table, num, bottom, next);
      var rest :| IsPath(table, next, rest);
      assert ([p] + rest)[1..] == rest;
      assert IsPath(table, p, [p] + rest);
    }
  }

  lemma {:induction false} NoPath(table: seq<PatList>, num: nat, bottom: nat, p: nat, path: seq<nat>)
    requires Threaded(table, num, bottom) && 1 <= p <= num && bottom != 0 && !(num < bottom <= |table|)
    ensures !IsPath(table, p, path)
    decreases |path|
  {
    if path != [] {
      var next := table[p - 1].next;
      if next <= num {
        NoPath(table, num, bottom, next, path[1..]);
      }
    }
  }

  /** From any pattern's entry: whether the walk is a walk over patterns, and whether it ends at all. */
  lemma EntryWalks(table: seq<PatList>, num: nat, bottom: nat, p: nat)
    requires Threaded(table, num, bottom) && 1 <= p <= num
    ensures Walks(table, p) <==> bottom == 0
    ensures Ends(table, p) <==> bottom == 0 || num < bottom <= |table|
  {
    if bottom == 0 {
      WalkDown(table, num, p);
    } else {
      forall visited ensures !IsWalk(table, p, visited) {
        NoWalk(table, num, bottom, p, visited);
      }
    }
    if bottom == 0 || num < bottom <= |table| {
      PathDown(table, num, bottom, p);
    } else {
      forall path ensures !IsPath(table, p, path) {
        NoPath(table, num, bottom, p, path);
      }
    }
  }

  // ---- compiled lists ---------------------------------------------------------------------------

  lemma CompiledIsThreaded(img: PatternImage, file: seq<byte>)
    requires img.Compiled(file)
    ensures Threaded(img.hashtable[..], img.numPat, img.Bottom())
  {
    hide Bucket, Chain, ShiftsExact;
    var t, sp, pt := img.hashtable[..], img.spool[..], img.patt[..];
    forall k | 0 <= k < img.numPat
      ensures LinksDown(t[k], k + 1, img.Bottom())
    {
      var j := k + 1;
      assert t[j - 1] == LinkOf(sp, pt, img.pSize, img.short, j, img.Bottom());
      var h := Bucket(sp, pt[j], img.pSize, img.short);
      ChainIsComplete(sp, pt, img.pSize, img.short, j - 1, h);
      var c := Chain(sp, pt, img.pSize, img.short, j - 1, h);
      assert c != [] ==> c[0] in c;
    }
  }

  /** Heads are patterns or 0, and every pattern's bucket has one. */
  lemma HeadsOfCompiled(img: PatternImage, file: seq<byte>, j: nat)
    requires img.Compiled(file) && 1 <= j <= img.numPat
    ensures forall h | 0 <= h < MAXHASH :: img.hash[h] <= img.numPat
    ensures img.hash[Bucket(img.spool[..], img.patt[j], img.pSize, img.short)] != 0
  {
    hide Bucket, Chain, ShiftsExact;
    var sp, pt := img.spool[..], img.patt[..];
    forall h: nat | h < MAXHASH
      ensures img.hash[h] <= img.numPat && (Bucket(sp, pt[j], img.pSize, img.short) == h ==> img.hash[h] != 0)
    {
      ChainIsComplete(sp, pt, img.pSize, img.short, img.numPat, h);
      var c := Chain(sp, pt, img.pSize, img.short, img.numPat, h);
      assert img.hash[..][h] == Head(c);
      assert c != [] ==> c[0] in c;
    }
  }

  /** Every walk is exact. */
  ghost predicate AllWalk(img: PatternImage)
    reads img.hash, img.hashtable
  {
    forall h | 0 <= h < img.hash.Length :: Walks(img.hashtable[..], img.hash[h])
  }

  /** Every walk over a bucket that holds a pattern comes to an end. */
  ghost predicate AllEnd(img: PatternImage)
    reads img.hash, img.hashtable
  {
    forall h | 0 <= h < img.hash.Length && img.hash[h] != 0 :: Ends(img.hashtable[..], img.hash[h])
  }

  /** For every compiled list, what the bytes of slot 0 decide: all walks are walks over the
      bucket's patterns exactly when they are zero; and all come to an end exactly when they are
      zero or lead to an unused entry. */
  lemma SlotZeroDecides(img: PatternImage, file: seq<byte>)
    requires img.Compiled(file)
    ensures AllWalk(img) <==> img.Bottom() == 0
    ensures AllEnd(img) <==> img.Bottom() == 0 || img.numPat < img.Bottom() <= MAX_NUM
  {
    hide PatternImage.Compiled, Threaded, Walks, Ends;
    CompiledSizes(img, file);
    CompiledIsThreaded(img, file);
    var table, num, b := img.hashtable[..], img.numPat, img.Bottom();
    NothingToWalk(table);
    if num == 0 {
      EmptyListIsZero(img, file);
    } else {
      var h0 := Bucket(img.spool[..], img.patt[1], img.pSize, img.short);
      HeadsOfCompiled(img, file, 1);
      forall h | 0 <= h < MAXHASH && img.hash[h] != 0
        ensures Walks(table, img.hash[h]) <==> b == 0
        ensures Ends(table, img.hash[h]) <==> b == 0 || num < b <= MAX_NUM
      {
        EntryWalks(table, num, b, img.hash[h]);
      }
      assert img.hash[h0] != 0;
    }
  }

  lemma NothingToWalk(table: seq<PatList>)
    ensures Walks(table, 0)
  {
    assert IsWalk(table, 0, []);
  }

  lemma CompiledSizes(img: PatternImage, file: seq<byte>)
    requires img.Compiled(file)
    ensures img.Sized() && img.numPat == |Patterns(file)| < MAX_NUM
    ensures forall j | 0 <= j < MAX_NUM :: img.patLen[j] == LengthByte(Patterns(file), j, img.numPat)
    ensures img.numPat >= 1 ==> img.patt[1] + img.pSize <= img.spool.Length
  {
    hide Chained, ShiftsExact;
  }

  lemma EmptyListIsZero(img: PatternImage, file: seq<byte>)
    requires img.Compiled(file) && img.numPat == 0
    ensures img.Bottom() == 0 && forall h | 0 <= h < MAXHASH :: img.hash[h] == 0
  {
    hide ShiftsExact;
    assert forall h | 0 <= h < MAXHASH :: img.hash[h] == img.hash[..][h];
  }

  /** Words of one to 255 bytes. */
  ghost predicate Ordinary(file: seq<byte>) {
    forall p | p in Patterns(file) :: 1 <= |p| <= 255
  }

  lemma SlotZeroOfOrdinary(img: PatternImage, file: seq<byte>)
    requires img.Compiled(file) && Ordinary(file)
    ensures img.Bottom() == 0 <==> img.numPat <= 191
    ensures img.numPat < img.Bottom() <= MAX_NUM <==> img.numPat == 192 && 193 <= |Patterns(file)[191]| <= MAX_NUM
  {
    hide PatternImage.Compiled, Patterns;
    CompiledSizes(img, file);
    var ps, num := Patterns(file), img.numPat;
    forall j | 192 <= j < 196
      ensures img.patLen[j] == (if j <= num then |ps[j - 1]| else 0)
      ensures j <= num ==> 1 <= img.patLen[j]
    {
      if j <= num {
        assert ps[j - 1] in ps;
      }
    }
  }

  /** For every list of ordinary words the walks are exact if and only if there are at most 191. */
  lemma WalksAreExactUpTo191(img: PatternImage, file: seq<byte>)
    requires img.Compiled(file) && Ordinary(file)
    ensures AllWalk(img) <==> |Lines(file)| <= 191
  {
    hide PatternImage.Compiled, Ordinary, AllWalk, AllEnd, Lines, PatternImage.Bottom;
    CompiledSizes(img, file);
    SlotZeroDecides(img, file);
    SlotZeroOfOrdinary(img, file);
  }

  /** And they end if and only if there are at most 191 words, or 192 of which the last has 193 to
      200 bytes. */
  lemma WalksEndUpTo191(img: PatternImage, file: seq<byte>)
    requires img.Compiled(file) && Ordinary(file)
    ensures AllEnd(img) <==>
      |Lines(file)| <= 191 || (|Lines(file)| == 192 && 193 <= |Patterns(file)[191]| <= MAX_NUM)
  {
    hide PatternImage.Compiled, Ordinary, AllWalk, AllEnd, Lines, PatternImage.Bottom;
    CompiledSizes(img, file);
    SlotZeroDecides(img, file);
    SlotZeroOfOrdinary(img, file);
  }

  // ---- a list that hangs the search ----------------------------------------------------------------

  const AB: seq<byte> := [97, 98]
  const QR: seq<byte> := [113, 114]

  /** "ab" 191 times, and 192 times the letter c. */
  function Crowd(): (words: seq<seq<byte>>)
    ensures |words| == 192
    ensures forall j | 0 <= j < 191 :: words[j] == AB
    ensures |words[191]| == 192 && forall k | 0 <= k < 192 :: words[191][k] == 99
  {
    seq(191, _ => AB) + [seq(192, _ => 99)]
  }

  lemma {:induction false} JoinedLength(words: seq<seq<byte>>, n: nat)
    requires n < |words| && forall j | 0 <= j < n :: |words[j]| == 2
    requires n == |words| - 1
    ensures |Joined(words, NEWLINE)| == 3 * n + |words[n]| + 1
  {
    if n > 0 {
      JoinedLength(words[1..], n - 1);
    } else {
      assert words[1..] == [];
    }
  }

  /** prepf accepts this list. */
  lemma CrowdIsAccepted()
    ensures var file := Joined(Crowd(), NEWLINE);
      |file| == 766 <= MAXPATFILE && Lines(file) == Crowd() == Patterns(file) && |Lines(file)| < MAX_NUM
  {
    hide Lines, Joined;
    var words := Crowd();
    var file := Joined(words, NEWLINE);
    JoinedLength(words, 191);
    LinesOfJoined(words);
    forall j | 0 <= j < |words| ensures CStr(words[j]) == words[j] {
      FirstIndexIs(words[j], 0, |words[j]|);
    }
    assert Patterns(file) == words;
  }

  lemma CrowdNumbers(img: PatternImage, file: seq<byte>)
    requires img.Compiled(file) && Patterns(file) == Lines(file) == Crowd() && |file| == 766
    ensures img.numPat == 192 && img.pSize == 2 && !img.short && !img.long && img.Bottom() == 192
    ensures img.shift1[Block(QR, 1, false)] == 0
  {
    hide Chained, Lines, Patterns, Crowd;
    var words := Crowd();
    assert |words[0]| == 2;
    forall i | 0 <= i < |words| ensures |words[i]| == 2 || |words[i]| == 192 {
    }
    CompiledSizes(img, file);
    assert img.patLen[192..196] == [192, 0, 0, 0];
    var h, shift := Block(QR, 1, false), img.shift1[..];
    assert IsShift(shift[h], h, img.spool[..], img.patt[..], 2, false, 192, 2);
  }

  /** "qr" shares block and bucket with "ab". */
  lemma SameBucketAsAb(spool: seq<byte>, o: nat)
    requires o + 2 <= |spool| && spool[o] == 97 && spool[o + 1] == 98
    ensures Bucket(QR, 0, 2, false) == Bucket(spool, o, 2, false)
  {
    assert HashFrom(QR, 0, 2, 2, false) == HashFrom(spool, o, 2, 2, false);
    assert HashFrom(QR, 0, 1, 2, false) == HashFrom(spool, o, 1, 2, false);
  }

  lemma NoWordInQr(img: PatternImage, file: seq<byte>)
    requires img.Compiled(file) && Patterns(file) == Crowd()
    ensures !img.View().FoundHere(QR, 0)
  {
    hide Chained, ShiftsExact, Lines, Patterns, Crowd;
    forall i: int ensures !img.View().FoundAt(QR, i, 0) {
      if img.View().FoundAt(QR, i, 0) {
        PatternBytes(img, file, i);
        MatchGoesOn(QR, 0, img.spool[..], img.patt[i], 0, img.View().Need(i));
      }
    }
  }

  /** On the clean text "qr" this accepted list (CrowdIsAccepted) hangs monkey1: the first window asks
      for a walk, no pattern on it can match, and it never comes to an end. */
  lemma CrowdHangsTheSearch(img: PatternImage, file: seq<byte>)
    requires img.Compiled(file) && Patterns(file) == Lines(file) == Crowd() && |file| == 766
    ensures !img.short && img.pSize == 2 && img.shift1[Block(QR, 1, img.long)] == 0
    ensures var h := Bucket(QR, 0, img.pSize, false);
      img.hash[h] != 0 && !Ends(img.hashtable[..], img.hash[h])
    ensures !img.View().FoundHere(QR, 0)
  {
    hide PatternImage.Compiled, Lines, Patterns, Crowd, Ends, Threaded, Bucket;
    CompiledSizes(img, file);
    CrowdNumbers(img, file);
    NoWordInQr(img, file);
    AbComesFirst(img, file);
    SameBucketAsAb(img.spool[..], img.patt[1]);
    HeadsOfCompiled(img, file, 1);
    CompiledIsThreaded(img, file);
    EntryWalks(img.hashtable[..], 192, 192, img.hash[Bucket(QR, 0, 2, false)]);
  }

  lemma AbComesFirst(img: PatternImage, file: seq<byte>)
    requires img.Compiled(file) && Patterns(file) == Crowd()
    ensures img.patt[1] + 2 <= img.spool.Length
    ensures img.spool[img.patt[1]] == 97 && img.spool[img.patt[1] + 1] == 98
  {
    hide Chained, ShiftsExact, Lines, Patterns, Crowd;
    PatternBytes(img, file, 1);
    assert Crowd()[0] == AB;
  }

  // ---- past the end of the text ----------------------------------------------------------------------

  /** The words "xy" and "abc". */
  const XY_ABC: seq<byte> := [120, 121, NEWLINE, 97, 98, 99]
  const ABC: seq<byte> := [97, 98, 99]

  lemma WordsOfXyAbc()
    ensures Lines(XY_ABC) == [[120, 121], ABC] == Patterns(XY_ABC)
    ensures XY_ABC == [120, 121, 10, 97, 98, 99] && ABC == [97, 98, 99]
  {
    LineEndIs(XY_ABC, 0, 2);
    LineEndIs(XY_ABC, 3, 6);
    assert XY_ABC[0..2] == [120, 121] && XY_ABC[3..6] == ABC;
    assert LinesFrom(XY_ABC, 3) == [ABC] + LinesFrom(XY_ABC, 7);
    assert LinesFrom(XY_ABC, 0) == [[120, 121]] + LinesFrom(XY_ABC, 3);
    var xy: seq<byte> := [120, 121];
    assert Lines(XY_ABC) == [xy] + [ABC];
    FirstIndexIs(xy, 0, 2);
    FirstIndexIs(ABC, 0, 3);
    assert CStr(xy) == xy && CStr(ABC) == ABC;
    assert Patterns(XY_ABC) == [xy, ABC];
  }

  lemma XyAbcRunsOver()
    ensures !Naive(ABC, 0, 1, Patterns(XY_ABC)) && RunsOver(ABC, 0, 1, Patterns(XY_ABC), 2)
  {
    hide Lines, Patterns;
    WordsOfXyAbc();
    var ps := Patterns(XY_ABC);
    assert Overrun(ABC, 0, 1, ps, 2, 1, 0);
    assert ABC[0 + 0] == 97 && ps[0][0] == 120 && !SameUpToCase(97, 120);
  }

  /** The comparison has no length bound: with this list the text "ab" counts as a match when a "c"
      follows it in memory, although no word occurs in it. */
  lemma MatchMayReachPastEnd(img: PatternImage)
    requires img.Compiled(XY_ABC)
    ensures img.View().Found(ABC, 0, 1) && !Naive(ABC, 0, 1, Patterns(XY_ABC))
  {
    hide Lines, Patterns, Chained, ShiftsExact;
    WordsOfXyAbc();
    var ps := Patterns(XY_ABC);
    assert |ps[0]| == 2 && |ps[1]| == 3;
    assert img.pSize == 2;
    hide PatternImage.Compiled, Naive, RunsOver;
    XyAbcRunsOver();
    SearchIsExactly(img, XY_ABC, ABC, 0, 1);
  }
}
