/** Compiling a word list into the pattern image: spool, fold tables, skip table, chains. */
module MgrepImage {
  import opened CBytes
  import opened MgrepSpec

  /** Line `l` sits at offset `o`, followed by a NUL. */
  ghost predicate LineAt(spool: seq<byte>, o: nat, l: seq<byte>) {
    && o + |l| < |spool|
    && (forall k | o <= k < o + |l| :: spool[k] == l[k - o])
    && spool[o + |l|] == 0
  }

  /** The lines fill the spool from offset 0, one NUL after each. */
  ghost predicate LaidOut(spool: seq<byte>, ls: seq<seq<byte>>) {
    forall j | 0 <= j < |ls| :: LineInPlace(spool, ls, j)
  }

  ghost predicate LineInPlace(spool: seq<byte>, ls: seq<seq<byte>>, j: int) {
    0 <= j < |ls| && LineAt(spool, Offset(ls, j), ls[j])
  }

  /** `patt` holds the offsets of the lines, as far as it reaches. */
  ghost predicate PointsTo(patt: seq<nat>, ls: seq<seq<byte>>) {
    forall j | 1 <= j <= |ls| && j < |patt| :: patt[j] == Offset(ls, j - 1)
  }

  lemma LineFrame(spool: seq<byte>, spool': seq<byte>, o: nat, l: seq<byte>, used: nat)
    requires LineAt(spool, o, l) && o + |l| < used <= |spool| == |spool'|
    requires forall k | 0 <= k < used :: spool'[k] == spool[k]
    ensures LineAt(spool', o, l)
  {
  }

  lemma LaidOutFrame(spool: seq<byte>, spool': seq<byte>, ls: seq<seq<byte>>, used: nat)
    requires LaidOut(spool, ls)
    requires used == Offset(ls, |ls|) <= |spool| == |spool'|
    requires forall k | 0 <= k < used :: spool'[k] == spool[k]
    ensures LaidOut(spool', ls)
  {
    hide LineAt, Offset;
    forall j | 0 <= j < |ls|
      ensures LineInPlace(spool', ls, j)
    {
      OffsetMonotone(ls, j, |ls|);
      assert LineInPlace(spool, ls, j);
      LineFrame(spool, spool', Offset(ls, j), ls[j], used);
    }
  }

  lemma LaidOutSnoc(spool: seq<byte>, ls: seq<seq<byte>>, l: seq<byte>)
    requires LaidOut(spool, ls)
    requires LineAt(spool, Offset(ls, |ls|), l)
    ensures LaidOut(spool, ls + [l])
    ensures Offset(ls + [l], |ls| + 1) == Offset(ls, |ls|) + |l| + 1
  {
    var all := ls + [l];
    forall j | 0 <= j < |all|
      ensures LineInPlace(spool, all, j)
    {
      OffsetAppend(ls, [l], j);
      if j < |ls| {
        assert LineInPlace(spool, ls, j);
      }
    }
    OffsetAppend(ls, [l], |ls|);
  }

  /** The patterns: each line up to its first NUL, as strlen sees it. */
  function Patterns(file: seq<byte>): (ps: seq<seq<byte>>)
    ensures |ps| == |Lines(file)|
  {
    var ls := Lines(file);
    seq(|ls|, j requires 0 <= j < |ls| => CStr(ls[j]))
  }

  /** The entry of `pat_len` for pattern `j` once patterns 1..n are measured: a length in a byte. */
  function LengthByte(ps: seq<seq<byte>>, j: int, n: nat): byte
    requires n <= |ps|
  {
    if 1 <= j <= n then |ps[j - 1]| % 256 else 0
  }

  /** The struct that prepf allocates. Its arrays are part of it and never replaced. */
  class PatternImage {
    var long: bool
    var short: bool
    var pSize: nat
    const shift1: array<byte>
    const tr: array<byte>
    const tr1: array<byte>
    const hash: array<nat>
    const spool: array<byte>
    const patt: array<nat>
    const patLen: array<byte>
    const hashtable: array<PatList>
    ghost var numPat: nat

    /** malloc and bzero */
    constructor ()
      ensures Separate() && fresh(Arrays())
      ensures pSize == 0 && !long && !short && numPat == 0
      ensures forall k | 0 <= k < MAX_NUM :: patt[k] == 0 && patLen[k] == 0 && hashtable[k] == PatList(0, 0)
      ensures forall k | 0 <= k < SPOOL_SIZE :: spool[k] == 0
    {
      long, short, pSize, numPat := false, false, 0, 0;
      shift1 := new byte[MAXMEMBER1](_ => 0);
      tr := new byte[MAXSYM](_ => 0);
      tr1 := new byte[MAXSYM](_ => 0);
      hash := new nat[MAXHASH](_ => 0);
      spool := new byte[SPOOL_SIZE](_ => 0);
      patt := new nat[MAX_NUM](_ => 0);
      patLen := new byte[MAX_NUM](_ => 0);
      hashtable := new PatList[MAX_NUM](_ => PatList(0, 0));
    }

    ghost function Arrays(): set<object> {
      {shift1, tr, tr1, hash, spool, patt, patLen, hashtable}
    }

    ghost predicate Sized() {
      && shift1.Length == MAXMEMBER1 && tr.Length == MAXSYM && tr1.Length == MAXSYM && hash.Length == MAXHASH
      && spool.Length == SPOOL_SIZE && patt.Length == MAX_NUM && patLen.Length == MAX_NUM
      && hashtable.Length == MAX_NUM
    }

    /** The members of a C struct do not overlap. */
    ghost predicate Separate() {
      && Sized()
      && shift1 != tr && shift1 != tr1 && shift1 != spool && shift1 != patLen
      && tr != tr1 && tr != spool && tr != patLen && tr1 != spool && tr1 != patLen && spool != patLen
      && hash != patt
    }

    /** Every pattern's m-byte prefix lies in the spool. */
    ghost predicate PrefixesInSpool()
      reads this, spool, patt
    {
      && numPat < patt.Length
      && forall j | 0 <= j <= numPat :: patt[j] + pSize <= spool.Length
    }

    ghost predicate FoldTables()
      reads tr, tr1
    {
      && tr.Length == MAXSYM && tr1.Length == MAXSYM
      && (forall c: int | 0 <= c < MAXSYM :: tr[c] == Fold(c))
      && (forall c: int | 0 <= c < MAXSYM :: tr1[c] == Fold(c) % 16)
    }

    /** The bytes in front of `hashtable` are patLen[192..200), so slot 0 - an empty bucket -
        reads its two 32-bit members from there. */
    function Slot(p: nat): PatList
      requires p <= hashtable.Length && patLen.Length == MAX_NUM
      reads hashtable, patLen
    {
      if p == 0 then
        PatList(FromLittle(patLen[192..196]), FromLittle(patLen[196..200]))
      else hashtable[p - 1]
    }

    /** So slot 0 reads two zeros. */
    ghost predicate ZeroSlot()
      reads patLen
    {
      patLen.Length == MAX_NUM && forall j | 192 <= j < MAX_NUM :: patLen[j] == 0
    }

    /** What an entry of an empty bucket links to: the first member of slot 0. */
    ghost function Bottom(): nat
      requires patLen.Length == MAX_NUM
      reads patLen
    {
      FromLittle(patLen[192..196])
    }

    /** Patterns 1..k are chained, and the entries behind them untouched. */
    ghost predicate ChainsExact(k: nat)
      reads this, spool, patt, patLen, hash, hashtable
    {
      && Sized()
      && Chained(hashtable[..], hash[..], spool[..], patt[..], pSize, short, k, Bottom())
      && forall j | k <= j < MAX_NUM :: hashtable[j] == PatList(0, 0)
    }

    ghost function View(): Image
      reads this, shift1, hash, spool, patt, patLen, hashtable
    {
      Image(long, pSize, numPat, shift1[..], hash[..], spool[..], patt[..], patLen[..], hashtable[..])
    }

    /** What the search relies on. */
    ghost predicate Valid()
      reads this, shift1, tr, tr1, hash, spool, patt, patLen, hashtable
    {
      Sized() && FoldTables() && ZeroSlot() && !short && View().Ready()
    }

    /** The compiled image of a word list. */
    ghost predicate Compiled(file: seq<byte>)
      reads this, shift1, tr, tr1, hash, spool, patt, patLen, hashtable
    {
      && Holds(file) && FoldTables() && PrefixesInSpool()
      && ShiftsExact(shift1[..], spool[..], patt[..], pSize, long, numPat, pSize)
      && ChainsExact(numPat)
    }

    /** The spool, `patt` and `pat_len` describe the word list. */
    ghost predicate Holds(file: seq<byte>)
      reads this, spool, patt, patLen
    {
      var ls := Lines(file);
      && Sized()
      && numPat == |ls| < MAX_NUM
      && LaidOut(spool[..], ls)
      && patt[0] == 0 && PointsTo(patt[..], ls)
      && (forall j | 0 <= j < MAX_NUM :: patLen[j] == LengthByte(Patterns(file), j, numPat))
      && IsLeastLength(pSize, Patterns(file), numPat)
      && long == (|file| > 400 && pSize > 2)
      && short == (pSize == 1)
    }

    /** Copies the lines of the word list into the spool, a NUL after each. Slots of `patt`
        past its end are not written; an image with that many lines is rejected. */
    method Split(file: seq<byte>) returns (p: nat, ptr: nat)
      requires Separate() && |file| <= MAXPATFILE
      requires patt[0] == 0
      modifies spool, patt
      ensures var ls := Lines(file);
              && p == |ls| + 1
              && LaidOut(spool[..], ls)
              && patt[0] == 0
              && PointsTo(patt[..], ls)
              && ptr == Offset(ls, |ls|) <= |file| + 1
    {
      hide LinesFrom, Offset, LaidOut;
      SplitStarts(file, spool[..], patt[..]);
      var length := |file|;
      p, ptr := 1, 0;
      ghost var done: seq<seq<byte>> := [];
      while ptr < length
        invariant ptr <= length + 1
        invariant |done| == p - 1
        invariant done + LinesFrom(file, ptr) == Lines(file)
        invariant ptr == Offset(done, |done|)
        invariant LaidOut(spool[..], done)
        invariant patt[0] == 0
        invariant PointsTo(patt[..], done)
        decreases length - ptr
      {
        if p < MAX_NUM {
          patt[p] := ptr;
        }
        ghost var before := spool[..];
        var nul := CopyLine(file, ptr);
        NextLine(file, done, ptr, nul);
        AddLine(before, spool[..], patt[..], done, file, ptr, nul);
        done := done + [file[ptr..nul]];
        ptr := nul + 1;
        p := p + 1;
      }
      NoMoreLines(file, ptr);
      assert done + [] == done;
    }

    /** The inner loop of prepf; buffer and spool advance together. `buf[length]` holds a newline. */
    method CopyLine(file: seq<byte>, start: nat) returns (ptr: nat)
      requires Separate() && start < |file| <= MAXPATFILE
      modifies spool
      ensures start <= ptr <= |file|
      ensures forall k | 0 <= k < start :: spool[k] == old(spool[k])
      ensures forall k | start <= k < ptr :: spool[k] == file[k] != NEWLINE
      ensures ptr < |file| ==> file[ptr] == NEWLINE
      ensures spool[ptr] == 0
    {
      ptr := start;
      spool[ptr] := file[ptr];
      while spool[ptr] != NEWLINE
        invariant start <= ptr <= |file|
        invariant forall k | 0 <= k < start :: spool[k] == old(spool[k])
        invariant forall k | start <= k < ptr :: spool[k] == file[k] != NEWLINE
        invariant spool[ptr] == if ptr < |file| then file[ptr] else NEWLINE
        decreases |file| - ptr
      {
        ptr := ptr + 1;
        spool[ptr] := if ptr < |file| then file[ptr] else NEWLINE;
      }
      spool[ptr] := 0;
    }

    method Strlen(o: nat, ghost l: seq<byte>) returns (n: nat)
      requires LineAt(spool[..], o, l)
      ensures n == |CStr(l)|
    {
      n := 0;
      while spool[o + n] != 0
        invariant n <= |l|
        invariant forall k | 0 <= k < n :: l[k] != 0
        decreases |l| - n
      {
        n := n + 1;
      }
      FirstIndexIs(l, 0, n);
    }

    /** The pattern lengths and their minimum. */
    method Measure(num: nat, ghost ls: seq<seq<byte>>, ghost ps: seq<seq<byte>>)
      requires Separate() && num == |ls| == |ps| < MAX_NUM
      requires forall j | 0 <= j < num :: ps[j] == CStr(ls[j])
      requires LaidOut(spool[..], ls) && PointsTo(patt[..], ls)
      requires forall j | 0 <= j < MAX_NUM :: patLen[j] == 0
      modifies `pSize, patLen
      ensures forall j | 0 <= j < MAX_NUM :: patLen[j] == LengthByte(ps, j, num)
      ensures IsLeastLength(pSize, ps, num)
      ensures forall j | 0 <= j < num && ps[j] != [] :: pSize <= |ps[j]|
      ensures pSize == 256 || exists j :: 0 <= j < num && |ps[j]| == pSize
    {
      hide Offset, CStr;
      pSize := MAXPAT;
      for i := 1 to num + 1
        invariant forall j | 0 <= j < MAX_NUM :: patLen[j] == LengthByte(ps, j, i - 1)
        invariant IsLeastLength(pSize, ps, i - 1)
      {
        assert LineInPlace(spool[..], ls, i - 1);
        var p := Strlen(patt[i], ls[i - 1]);
        patLen[i] := p % 256;
        if p != 0 && p < pSize {
          pSize := p;
        }
      }
    }

    method FillFoldTables()
      requires Separate()
      modifies tr, tr1
      ensures FoldTables()
      ensures forall c: int | 0 <= c < 256 :: tr[c] == if 65 <= c <= 90 then c + 32 else c
      ensures forall c: int | 0 <= c < 256 :: tr1[c] == tr[c] % 16
    {
      for i := 0 to MAXSYM
        invariant forall c: int | 0 <= c < i :: tr[c] == c
      {
        tr[i] := i;
      }
      for i := 'A' as int to 'Z' as int + 1
        invariant forall c: int | 0 <= c < MAXSYM :: tr[c] == if c < i then Fold(c) else c
      {
        tr[i] := i + 'a' as int - 'A' as int;
      }
      for i := 0 to MAXSYM
        invariant forall c: int | 0 <= c < i :: tr1[c] == Fold(c) % 16
        invariant forall c: int | 0 <= c < MAXSYM :: tr[c] == Fold(c)
      {
        tr1[i] := tr[i] % 16;
      }
    }

    /** Enters pattern `patIndex` into the skip table and into its bucket. */
    method FPrep(patIndex: nat)
      requires Separate() && PrefixesInSpool() && FoldTables()
      requires 1 <= patIndex <= numPat
      requires 1 <= pSize <= MAXPAT && (long ==> pSize > 2)
      requires ShiftsExact(shift1[..], spool[..], patt[..], pSize, long, patIndex - 1, pSize)
      requires ChainsExact(patIndex - 1)
      modifies shift1, hash, hashtable
      ensures ShiftsExact(shift1[..], spool[..], patt[..], pSize, long, patIndex, pSize)
      ensures ChainsExact(patIndex)
    {
      EnterBlocks(patIndex);
      EnterBucket(patIndex);
    }

    /** The rest of f_prep. */
    method EnterBucket(patIndex: nat)
      requires Separate() && PrefixesInSpool() && FoldTables()
      requires 1 <= patIndex <= numPat
      requires ChainsExact(patIndex - 1)
      modifies hash, hashtable
      ensures ChainsExact(patIndex)
    {
      hide Chained, Bucket;
      var b := BucketOf(patIndex);
      ghost var table := hashtable[..];
      LinkExtends(table, hash[..], spool[..], patt[..], pSize, short, patIndex, b, Bottom());
      Link(patIndex, b);
      assert forall j | patIndex <= j < MAX_NUM :: hashtable[j] == hashtable[..][j] == table[j];
    }

    /** The first loop of f_prep: the blocks of the prefix, from its end. */
    method EnterBlocks(patIndex: nat)
      requires Separate() && PrefixesInSpool()
      requires 1 <= patIndex <= numPat
      requires 1 <= pSize <= MAXPAT && (long ==> pSize > 2)
      requires ShiftsExact(shift1[..], spool[..], patt[..], pSize, long, patIndex - 1, pSize)
      modifies shift1
      ensures ShiftsExact(shift1[..], spool[..], patt[..], pSize, long, patIndex, pSize)
    {
      var o, m := patt[patIndex], pSize;
      ghost var sp, pt, k := spool[..], patt[..], patIndex - 1;
      var i: int := m - 1;
      while i >= (if long then 2 else 1)
        invariant i <= m - 1
        invariant i >= FirstBlock(long) - 1 || i == m - 1
        invariant ShiftsExact(shift1[..], sp, pt, m, long, k, i + 1)
      {
        var h := RawBlock(o + i);
        ghost var was := shift1[..];
        if shift1[h] >= m - 1 - i {
          shift1[h] := m - 1 - i;
        }
        EnterBlock(was, shift1[..], h, sp, pt, m, long, k, i);
        i := i - 1;
      }
      ShiftsComplete(shift1[..], sp, pt, m, long, k, i + 1);
    }

    /** f_prep hashes the raw bytes of a block, the search the folded ones: letter case does
        not reach the low four bits, so the hashes agree. */
    method RawBlock(e: nat) returns (h: nat)
      requires Separate() && FirstBlock(long) <= e < spool.Length
      ensures h == Block(spool[..], e, long) < MAXMEMBER1
    {
      hide Fold;
      CaseKeepsLowBits(spool[e]);
      CaseKeepsLowBits(spool[e - 1]);
      h := spool[e] % 16;
      h := h * 16 + spool[e - 1] % 16;
      if long {
        CaseKeepsLowBits(spool[e - 2]);
        h := h * 16 + spool[e - 2] % 16;
      }
    }

    /** The second loop of f_prep: the 32-bit hash of the whole prefix, masked. */
    method BucketOf(patIndex: nat) returns (b: nat)
      requires Separate() && PrefixesInSpool() && FoldTables()
      requires 1 <= patIndex <= numPat
      ensures b == Bucket(spool[..], patt[patIndex], pSize, short)
    {
      var o := patt[patIndex];
      var h: nat := 0;
      var i: int := pSize - 1;
      while i >= 0
        invariant -1 <= i < pSize
        invariant h == HashFrom(spool[..], o, i + 1, pSize, short)
      {
        h := (h * 16 + if short then tr[spool[o + i]] else tr[spool[o + i]] % 16) % TWO_32;
        i := i - 1;
      }
      b := h % MAXHASH;
    }

    /** The end of f_prep: the new entry takes over its bucket and points to the old head. */
    method Link(patIndex: nat, b: nat)
      requires Sized() && 1 <= patIndex < MAX_NUM && b < MAXHASH && hash[b] < patIndex
      modifies hash, hashtable
      ensures hashtable[..] == old(hashtable[..])[patIndex - 1 := PatList(patIndex, old(Slot(hash[b]).index))]
      ensures hash[..] == old(hash[..])[b := patIndex]
    {
      hashtable[patIndex - 1] := PatList(patIndex, hashtable[patIndex - 1].next);
      var next := Slot(hash[b]).index;
      hashtable[patIndex - 1] := PatList(patIndex, next);
      hash[b] := patIndex;
    }
  }

  /** prepf: compiles the word list read from the file; false stands for its -1 returns. */
  method Prepf(file: seq<byte>) returns (img: PatternImage, ok: bool)
    ensures fresh(img) && fresh(img.Arrays())
    ensures ok <==> |file| <= 2600 && |Lines(file)| < 200
    ensures ok ==> img.Compiled(file)
  {
    img := new PatternImage();
    if |file| > MAXPATFILE {
      return img, false;
    }
    var p, ptr := img.Split(file);
    if p > MAX_NUM {
      return img, false;
    }
    Finish(img, file, p - 1, ptr);
    FillTables(img, p - 1);
    ok := true;
  }

  /** The part of prepf between the copy loop and the tables. */
  method Finish(img: PatternImage, file: seq<byte>, num: nat, ptr: nat)
    requires img.Separate() && |file| <= MAXPATFILE && num == |Lines(file)| < MAX_NUM
    requires LaidOut(img.spool[..], Lines(file)) && PointsTo(img.patt[..], Lines(file))
    requires ptr == Offset(Lines(file), num) <= |file| + 1
    requires img.patt[0] == 0 && forall j | 0 <= j < MAX_NUM :: img.patLen[j] == 0
    modifies img, img.spool, img.tr, img.tr1, img.patLen
    ensures img.Holds(file) && img.FoldTables() && img.PrefixesInSpool()
  {
    ghost var before := img.spool[..];
    for i := 1 to 20
      invariant forall k | 0 <= k < ptr :: img.spool[k] == before[k]
      modifies img.spool
    {
      img.spool[ptr] := i;
    }
    LaidOutFrame(before, img.spool[..], Lines(file), ptr);
    img.FillFoldTables();
    img.Measure(num, Lines(file), Patterns(file));
    img.numPat := num;
    img.long := |file| > 400 && img.pSize > 2;
    img.short := img.pSize == 1;
    OffsetsBelow(Lines(file), img.patt[..], num, ptr);
  }

  /** The two clearing loops of prepf. */
  method ClearTables(img: PatternImage)
    requires img.Separate() && img.PrefixesInSpool() && 1 <= img.pSize
    requires forall j | 0 <= j < MAX_NUM :: img.hashtable[j] == PatList(0, 0)
    modifies img.shift1, img.hash
    ensures img.ChainsExact(0)
    ensures ShiftsExact(img.shift1[..], img.spool[..], img.patt[..], img.pSize, img.long, 0, img.pSize)
  {
    for i := 0 to MAXMEMBER1
      invariant forall h | 0 <= h < i :: img.shift1[h] == DefaultShift(img.pSize)
      modifies img.shift1
    {
      img.shift1[i] := (img.pSize - 2) % 256;
    }
    for i := 0 to MAXHASH
      invariant forall h | 0 <= h < i :: img.hash[h] == 0
      modifies img.hash
    {
      img.hash[i] := 0;
    }
    NoShifts(img.shift1[..], img.spool[..], img.patt[..], img.pSize, img.long);
  }

  lemma NoShifts(shift: seq<byte>, spool: seq<byte>, patt: seq<nat>, m: nat, long: bool)
    requires |shift| == MAXMEMBER1 && forall h | 0 <= h < MAXMEMBER1 :: shift[h] == DefaultShift(m)
    ensures ShiftsExact(shift, spool, patt, m, long, 0, m)
  {
    forall h | 0 <= h < MAXMEMBER1
      ensures IsShift(shift[h], h, spool, patt, m, long, 0, m)
    {
      assert shift[h] == DefaultShift(m);
    }
  }

  /** The clearing loops of prepf and the loop over f_prep. */
  method FillTables(img: PatternImage, num: nat)
    requires img.Separate() && img.FoldTables() && img.PrefixesInSpool() && num == img.numPat
    requires 1 <= img.pSize <= MAXPAT && (img.long ==> img.pSize > 2)
    requires forall j | 0 <= j < MAX_NUM :: img.hashtable[j] == PatList(0, 0)
    modifies img.shift1, img.hash, img.hashtable
    ensures ShiftsExact(img.shift1[..], img.spool[..], img.patt[..], img.pSize, img.long, num, img.pSize)
    ensures img.ChainsExact(num)
  {
    ClearTables(img);
    for i := 1 to num + 1
      invariant ShiftsExact(img.shift1[..], img.spool[..], img.patt[..], img.pSize, img.long, i - 1, img.pSize)
      invariant img.ChainsExact(i - 1)
    {
      img.FPrep(i);
    }
  }

  /** All lines start before the end of the used part of the spool. */
  lemma OffsetsBelow(ls: seq<seq<byte>>, patt: seq<nat>, num: nat, ptr: nat)
    requires PointsTo(patt, ls) && num == |ls| < |patt| && patt[0] == 0 && ptr == Offset(ls, num)
    ensures forall j | 0 <= j <= num :: patt[j] <= ptr
  {
    forall j | 1 <= j <= num
      ensures patt[j] <= ptr
    {
      OffsetMonotone(ls, j - 1, num);
    }
  }

  /** With at most 191 lines slot 0 reads two zeros. */
  lemma ShortListHasZeroSlot(img: PatternImage, file: seq<byte>)
    requires img.Holds(file) && img.numPat <= 191
    ensures img.ZeroSlot()
  {
  }

  /** With a zero slot, the shortest non-empty line of at least two bytes, the image is fit for
      the search. */
  lemma CompiledIsValid(img: PatternImage, file: seq<byte>)
    requires img.Compiled(file) && img.ZeroSlot() && img.pSize >= 2
    ensures img.Valid()
  {
    hide Chained, ShiftsExact;
    HoldsReady(img, file);
    assert img.Bottom() == 0;
  }

  lemma HoldsReady(img: PatternImage, file: seq<byte>)
    requires img.Holds(file) && img.PrefixesInSpool()
    ensures img.View().Fits()
    ensures var v := img.View();
            && v.patt[0] == 0 && v.patLen[0] == 0
            && (if v.num == 0 then v.m == MAXPAT else v.patt[1] == 0)
  {
    assert img.numPat >= 1 ==> img.patt[..][1] == Offset(Lines(file), 0);
  }

  lemma SplitStarts(file: seq<byte>, spool: seq<byte>, patt: seq<nat>)
    ensures [] + LinesFrom(file, 0) == Lines(file)
    ensures Offset([], 0) == 0 && LaidOut(spool, []) && PointsTo(patt, [])
  {
  }

  lemma NoMoreLines(file: seq<byte>, i: nat)
    requires i >= |file|
    ensures LinesFrom(file, i) == []
  {
  }

  /** One line of the word list and the position after its newline. */
  lemma NextLine(file: seq<byte>, done: seq<seq<byte>>, start: nat, ptr: nat)
    requires start < |file| && start <= ptr <= |file|
    requires forall k | start <= k < ptr :: file[k] != NEWLINE
    requires ptr < |file| ==> file[ptr] == NEWLINE
    ensures done + LinesFrom(file, start) == (done + [file[start..ptr]]) + LinesFrom(file, ptr + 1)
  {
    LineEndIs(file, start, ptr);
    var rest := LinesFrom(file, ptr + 1);
    assert LinesFrom(file, start) == [file[start..ptr]] + rest;
    hide LinesFrom, LineEnd;
    assert done + ([file[start..ptr]] + rest) == (done + [file[start..ptr]]) + rest;
  }

  /** The line just copied extends the layout. */
  lemma AddLine(before: seq<byte>, spool: seq<byte>, patt: seq<nat>, done: seq<seq<byte>>, file: seq<byte>,
                start: nat, ptr: nat)
    requires PointsTo(patt, done) && (|done| + 1 < |patt| ==> patt[|done| + 1] == start)
    requires LaidOut(before, done)
    requires start == Offset(done, |done|) <= ptr <= |file|
    requires ptr < |spool| == |before|
    requires forall k | 0 <= k < start :: spool[k] == before[k]
    requires forall k | start <= k < ptr :: spool[k] == file[k]
    requires spool[ptr] == 0
    ensures var ls := done + [file[start..ptr]];
            && LaidOut(spool, ls)
            && Offset(ls, |ls|) == ptr + 1
            && PointsTo(patt, ls)
  {
    var line := file[start..ptr];
    LaidOutFrame(before, spool, done, start);
    LaidOutSnoc(spool, done, line);
    forall j | 1 <= j <= |done| + 1 && j < |patt|
      ensures patt[j] == Offset(done + [line], j - 1)
    {
      OffsetAppend(done, [line], j - 1);
    }
  }

  /** Entering the block that ends at position `i` of pattern k + 1. */
  lemma EnterBlock(was: seq<byte>, now: seq<byte>, b: nat, spool: seq<byte>, patt: seq<nat>, m: nat, long: bool,
                   k: nat, i: nat)
    requires ShiftsExact(was, spool, patt, m, long, k, i + 1)
    requires EndsBlock(spool, patt, m, long, k + 1, i, b)
    requires m <= MAXPAT
    requires b < |was|
    requires now == was[b := if was[b] >= m - 1 - i then m - 1 - i else was[b]]
    ensures ShiftsExact(now, spool, patt, m, long, k, i)
  {
    forall h | 0 <= h < MAXMEMBER1
      ensures IsShift(now[h], h, spool, patt, m, long, k, i)
    {
      assert IsShift(was[h], h, spool, patt, m, long, k, i + 1);
      if h == b {
        EnterHere(was[b], b, spool, patt, m, long, k, i);
      } else {
        EnterElsewhere(was[h], h, spool, patt, m, long, k, i);
      }
    }
  }

  lemma EnterHere(v: byte, b: nat, spool: seq<byte>, patt: seq<nat>, m: nat, long: bool, k: nat, i: nat)
    requires IsShift(v, b, spool, patt, m, long, k, i + 1)
    requires EndsBlock(spool, patt, m, long, k + 1, i, b) && m <= MAXPAT
    ensures IsShift(if v >= m - 1 - i then m - 1 - i else v, b, spool, patt, m, long, k, i)
  {
    if v < m - 1 - i && v != DefaultShift(m) {
      var j', i' :| EndsBlock(spool, patt, m, long, j', i', b) && Entered(j', i', k, i + 1) && v == m - 1 - i';
      assert Entered(j', i', k, i);
    } else {
      assert Entered(k + 1, i, k, i);
    }
  }

  lemma EnterElsewhere(v: byte, h: nat, spool: seq<byte>, patt: seq<nat>, m: nat, long: bool, k: nat, i: nat)
    requires IsShift(v, h, spool, patt, m, long, k, i + 1)
    requires !EndsBlock(spool, patt, m, long, k + 1, i, h)
    ensures IsShift(v, h, spool, patt, m, long, k, i)
  {
    if v != DefaultShift(m) {
      var j', i' :| EndsBlock(spool, patt, m, long, j', i', h) && Entered(j', i', k, i + 1) && v == m - 1 - i';
      assert Entered(j', i', k, i);
    }
  }

  /** Once all blocks of pattern k + 1 are in, patterns 1..k + 1 are. */
  lemma ShiftsComplete(shift: seq<byte>, spool: seq<byte>, patt: seq<nat>, m: nat, long: bool, k: nat, from: int)
    requires ShiftsExact(shift, spool, patt, m, long, k, from)
    requires from <= FirstBlock(long)
    ensures ShiftsExact(shift, spool, patt, m, long, k + 1, m)
  {
    forall h | 0 <= h < MAXMEMBER1
      ensures IsShift(shift[h], h, spool, patt, m, long, k + 1, m)
    {
      assert IsShift(shift[h], h, spool, patt, m, long, k, from);
      forall j, i | EndsBlock(spool, patt, m, long, j, i, h)
        ensures Entered(j, i, k, from) == Entered(j, i, k + 1, m)
      {
      }
    }
  }
}
