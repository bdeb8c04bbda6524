/** The walk over the image file directories (IFDs) of a TIFF or EXIF block. */
module Tiff {
  import opened Bytes
  import opened Common

  datatype Buffer = Buffer(p: seq<byte>, bigEndian: bool)

  function U8(b: Buffer, off: nat): byte
  {
    if off < |b.p| then b.p[off] else 0
  }

  function U16(b: Buffer, off: nat): nat
  {
    if b.bigEndian then U8(b, off) * 256 + U8(b, off + 1) else U8(b, off) + U8(b, off + 1) * 256
  }

  function U32(b: Buffer, off: nat): nat
  {
    if b.bigEndian then U16(b, off) * 0x1_0000 + U16(b, off + 2) else U16(b, off) + U16(b, off + 2) * 0x1_0000
  }

  function S32(b: Buffer, off: nat): int
  {
    if U32(b, off) < 0x8000_0000 then U32(b, off) else U32(b, off) - 0x1_0000_0000
  }

  /** An unsigned 64-bit sum. */
  function Displaced(base: nat, d: int): nat
  {
    (base + d) % 0x1_0000_0000_0000_0000
  }

  function TypeSize(kind: int): (n: nat)
    ensures n > 0 <==> 1 <= kind <= 12
  {
    if 1 <= kind <= 12 then [0, 1, 1, 2, 4, 8, 1, 1, 2, 4, 8, 4, 8][kind] else 0
  }

  /** The directory that a pointer tag leads to, or -1: 1 Exif, 2 GPS, 3 interoperability. */
  function PointerKind(tag: int, kind: int): int
  {
    if kind == 0 && tag == 0x8769 then 1
    else if kind == 0 && tag == 0x8825 then 2
    else if kind == 1 && tag == 0xA005 then 3
    else -1
  }

  /** Numbers in both byte orders; what lies beyond the end is read as zeros. */
  lemma NumbersRead(b: Buffer, off: nat)
    ensures off >= |b.p| ==> U16(b, off) == 0 && U32(b, off) == 0
    ensures off + 2 <= |b.p| ==>
              U16(b, off) == if b.bigEndian then 0x100 * b.p[off] as int + b.p[off + 1] as int
                             else b.p[off] as int + 0x100 * b.p[off + 1] as int
    ensures off + 4 <= |b.p| ==>
              var top := if b.bigEndian then b.p[off] else b.p[off + 3];
              && U32(b, off) == (if b.bigEndian
                                 then 0x100_0000 * b.p[off] as int + 0x1_0000 * b.p[off + 1] as int + 0x100 * b.p[off + 2] as int + b.p[off + 3] as int
                                 else b.p[off] as int + 0x100 * b.p[off + 1] as int + 0x1_0000 * b.p[off + 2] as int + 0x100_0000 * b.p[off + 3] as int)
              && S32(b, off) == U32(b, off) - if top >= 128 then 0x1_0000_0000 else 0
  {
  }

  /** The types of section 2 of TIFF 6.0 and their sizes, and the tags that lead to another IFD. */
  lemma TypesAndPointers(kind: int, tag: int)
    ensures TypeSize(kind) == if kind in {1, 2, 6, 7} then 1 else if kind in {3, 8} then 2 else if kind in {4, 9, 11} then 4
                              else if kind in {5, 10, 12} then 8 else 0
    ensures PointerKind(tag, 0) == if tag == 34665 then 1 else if tag == 34853 then 2 else -1
    ensures PointerKind(tag, 1) == if tag == 40965 then 3 else -1
    ensures kind != 0 && kind != 1 ==> PointerKind(tag, kind) == -1
    ensures HasFollower(kind) <==> kind == 0 || kind == 4
  {
  }

  predicate HasFollower(kind: int)
  {
    kind == 0 || kind == 4
  }

  /** A value that was written down: where it lies, and which entry of which IFD said so.
      `kept` tells whether it got into its directory, `room` how many directories there were. */
  datatype Tag = Tag(dir: int, tag: int, kind: int, count: int, off: nat, ifd: nat, index: nat, room: nat, kept: bool)

  /** The value is what its entry describes, all of it lies in the buffer, and no more than five
      entries before it are invalid. */
  ghost predicate Recorded(b: Buffer, base: nat, t: Tag)
  {
    var e := t.ifd + 2 + 12 * t.index;
    && t.index < U16(b, t.ifd)
    && t.tag == U16(b, e) && t.kind == U16(b, e + 2) && t.count == S32(b, e + 4) >= 0
    && t.off == (if t.count * TypeSize(t.kind) > 4 then base + S32(b, e + 8) else e + 8)
    && TypeSize(t.kind) > 0 && t.off + t.count * TypeSize(t.kind) <= |b.p|
    && Invalids(b, base, t.ifd, t.index) <= 5
  }

  /** The entry's type is known and its value lies in the buffer. */
  predicate ValidEntry(b: Buffer, base: nat, ifd: nat, i: nat)
  {
    var e := ifd + 2 + 12 * i;
    var count, size := S32(b, e + 4), TypeSize(U16(b, e + 2));
    count >= 0 && size > 0 && (count * size > 4 ==> S32(b, e + 8) >= 0 && base + S32(b, e + 8) + count * size <= |b.p|)
  }

  ghost function Invalids(b: Buffer, base: nat, ifd: nat, n: nat): nat
  {
    if n == 0 then 0 else Invalids(b, base, ifd, n - 1) + if ValidEntry(b, base, ifd, n - 1) then 0 else 1
  }

  lemma {:induction false} InvalidsGrow(b: Buffer, base: nat, ifd: nat, i: nat, n: nat)
    requires i <= n
    ensures Invalids(b, base, ifd, i) <= Invalids(b, base, ifd, n)
    decreases n
  {
    hide ValidEntry;
    if i < n { InvalidsGrow(b, base, ifd, i, n - 1); }
  }

  lemma NoInvalids(b: Buffer, base: nat, ifd: nat)
    ensures Invalids(b, base, ifd, 0) == 0
  {
  }

  lemma NextInvalid(b: Buffer, base: nat, ifd: nat, i: nat)
    ensures Invalids(b, base, ifd, i + 1) == Invalids(b, base, ifd, i) + if ValidEntry(b, base, ifd, i) then 0 else 1
  {
  }

  /** The walk so far: the values written, the vector of directories (its size and its
      capacity), and the IFDs visited, each with the directory it was read as and the
      capacity of the vector when its reference to that directory was taken. */
  datatype Walk = Walk(tags: seq<Tag>, dirs: nat, cap: nat, visited: seq<nat>, kinds: seq<nat>, caps: seq<nat>)

  /** What the vector's capacity becomes when it is full. */
  function Doubled(cap: nat): nat
  {
    if cap == 0 then 1 else 2 * cap
  }

  /** Makes sure that there is a directory `kind`.  The vector moves, and references into it
      go stale, exactly if it has to hold more than its capacity. */
  method MakeDirs(dirs: nat, cap: nat, kind: nat) returns (dirs': nat, cap': nat)
    requires dirs <= cap
    ensures dirs' == (if dirs <= kind then kind + 1 else dirs) && dirs' <= cap' && cap <= cap'
    ensures cap' == cap <==> dirs' <= cap
    ensures cap' > cap ==> cap' < 2 * dirs'
    ensures dirs == cap == kind == 0 ==> cap' == 1
  {
    dirs', cap' := dirs, cap;
    while dirs' <= kind
      invariant dirs <= dirs' <= cap' && cap <= cap'
      invariant dirs' <= kind + 1 || dirs' == dirs
      invariant cap' == cap <==> dirs' <= cap
      invariant cap' > cap ==> cap' < 2 * dirs'
      invariant dirs == cap == kind == 0 ==> cap' == dirs'
    {
      if dirs' == cap' { cap' := Doubled(cap'); }
      dirs' := dirs' + 1;
    }
  }

  /** The IFD is of a size that fits into the buffer. */
  predicate Legal(b: Buffer, ifd: nat)
  {
    2 + 12 * U16(b, ifd) + 4 + ifd <= |b.p|
  }

  /** The entry leads to another IFD. */
  predicate IsPointer(b: Buffer, ifd: nat, i: nat, kind: int)
  {
    var e := ifd + 2 + 12 * i;
    S32(b, e + 4) * TypeSize(U16(b, e + 2)) == 4 && PointerKind(U16(b, e), kind) >= 0 && kind != 4
  }

  ghost predicate Has(tags: seq<Tag>, ifd: nat, i: nat, kind: int)
  {
    exists k :: 0 <= k < |tags| && tags[k].ifd == ifd && tags[k].index == i && tags[k].dir == kind
  }

  /** A valid entry was written down, or was followed if it points into the buffer. */
  ghost predicate Done(b: Buffer, base: nat, ifd: nat, kind: int, i: nat, w: Walk)
  {
    ValidEntry(b, base, ifd, i) ==>
      if IsPointer(b, ifd, i, kind) then
        var ptr := S32(b, ifd + 2 + 12 * i + 8);
        ptr >= 0 && base + ptr < |b.p| ==> base + ptr in w.visited
      else Has(w.tags, ifd, i, kind)
  }

  ghost predicate ReadUpTo(b: Buffer, base: nat, ifd: nat, kind: int, w: Walk, n: nat)
  {
    forall i :: 0 <= i < n ==> Done(b, base, ifd, kind, i, w)
  }

  /** Where the next IFD of the chain begins, if one is followed. */
  function Follower(b: Buffer, base: nat, ifd: nat, kind: int): Option<nat>
  {
    var next := S32(b, ifd + 2 + 12 * U16(b, ifd));
    var to := Displaced(base, next);
    if next != 0 && ifd <= to < |b.p| && HasFollower(kind) then Some(to) else None
  }

  /** The chain goes on behind the last entry, at an offset from the header that is not before
      this IFD, from the first IFD and from thumbnails.  No buffer is so long that the sum wraps. */
  lemma FollowerMeans(b: Buffer, base: nat, ifd: nat, kind: int)
    requires base <= |b.p| < 0x8000_0000_0000_0000
    ensures var next := S32(b, ifd + 2 + 12 * U16(b, ifd));
            Follower(b, base, ifd, kind) ==
            if next != 0 && ifd <= base + next < |b.p| && (kind == 0 || kind == 4) then Some(base + next) else None
  {
    hide U16, U32;
    SignedRange(b, ifd + 2 + 12 * U16(b, ifd));
  }

  lemma SignedRange(b: Buffer, off: nat)
    ensures -0x8000_0000 <= S32(b, off) < 0x8000_0000
  {
  }

  ghost predicate FollowerSeen(b: Buffer, base: nat, ifd: nat, kind: int, visited: seq<nat>)
  {
    var f := Follower(b, base, ifd, kind);
    f.Some? ==> f.value in visited
  }

  /** An IFD that fits into the buffer was read to its end and its chain was followed, unless
      more than five of its entries are invalid. */
  ghost predicate WasRead(b: Buffer, base: nat, ifd: nat, kind: int, w: Walk)
  {
    Legal(b, ifd) && Invalids(b, base, ifd, U16(b, ifd)) <= 5 ==>
      ReadUpTo(b, base, ifd, kind, w, U16(b, ifd)) && FollowerSeen(b, base, ifd, kind, w.visited)
  }

  ghost predicate AllRead(b: Buffer, base: nat, w: Walk, n: nat)
  {
    |w.kinds| == |w.visited| == |w.caps| && forall i :: n <= i < |w.visited| ==> WasRead(b, base, w.visited[i], w.kinds[i], w)
  }

  /** Nothing written or visited before is different later, and the vector has moved exactly
      if it outgrew its capacity. */
  ghost predicate Later(w: Walk, w': Walk)
  {
    && w.tags <= w'.tags && w.visited <= w'.visited && w.kinds <= w'.kinds && w.caps <= w'.caps
    && w.dirs <= w'.dirs && w.cap <= w'.cap && (w'.cap == w.cap <==> w'.dirs <= w.cap)
  }

  lemma DoneLater(b: Buffer, base: nat, ifd: nat, kind: int, i: nat, w: Walk, w': Walk)
    requires Done(b, base, ifd, kind, i, w) && Later(w, w')
    ensures Done(b, base, ifd, kind, i, w')
  {
    hide ValidEntry, IsPointer;
    if Has(w.tags, ifd, i, kind) {
      var k :| 0 <= k < |w.tags| && w.tags[k].ifd == ifd && w.tags[k].index == i && w.tags[k].dir == kind;
      assert w'.tags[k] == w.tags[k];
    }
  }

  lemma ReadLater(b: Buffer, base: nat, ifd: nat, kind: int, w: Walk, w': Walk, n: nat)
    requires ReadUpTo(b, base, ifd, kind, w, n) && Later(w, w')
    ensures ReadUpTo(b, base, ifd, kind, w', n)
  {
    hide Done;
    forall i | 0 <= i < n ensures Done(b, base, ifd, kind, i, w') { DoneLater(b, base, ifd, kind, i, w, w'); }
  }

  /** Further values and IFDs: those between `n` and the new ones stay read. */
  lemma AllReadLater(b: Buffer, base: nat, w: Walk, w': Walk, n: nat)
    requires AllRead(b, base, w, n) && AllRead(b, base, w', |w.visited|) && Later(w, w')
    ensures AllRead(b, base, w', n)
  {
    forall i | n <= i < |w.visited| ensures WasRead(b, base, w'.visited[i], w'.kinds[i], w') {
      hide ReadUpTo, Follower;
      assert w'.visited[i] == w.visited[i] && w'.kinds[i] == w.kinds[i];
      if ReadUpTo(b, base, w.visited[i], w.kinds[i], w, U16(b, w.visited[i])) {
        ReadLater(b, base, w.visited[i], w.kinds[i], w, w', U16(b, w.visited[i]));
      }
    }
    hide WasRead;
  }

  ghost predicate Distinct(visited: seq<nat>)
  {
    forall i, j :: 0 <= i < j < |visited| ==> visited[i] != visited[j]
  }

  /** A value is in its directory if and only if the vector has not moved since the reference
      was taken, on entry to the value's IFD. */
  ghost predicate KeptInPlace(w: Walk)
    requires |w.caps| == |w.visited|
  {
    forall k, i :: 0 <= k < |w.tags| && 0 <= i < |w.visited| && w.visited[i] == w.tags[k].ifd ==>
      (w.tags[k].kept <==> w.tags[k].room <= w.caps[i])
  }

  /** No entry was recorded twice, and none of an IFD that was not visited. */
  ghost predicate Once(tags: seq<Tag>, visited: seq<nat>)
  {
    && (forall i, j :: 0 <= i < j < |tags| ==> tags[i].ifd != tags[j].ifd || tags[i].index != tags[j].index)
    && (forall i :: 0 <= i < |tags| ==> tags[i].ifd in visited)
  }

  ghost predicate AllRecorded(b: Buffer, base: nat, tags: seq<Tag>)
  {
    forall i :: 0 <= i < |tags| ==> Recorded(b, base, tags[i])
  }

  /** Every tag is in a directory that there is. */
  ghost predicate InDirs(tags: seq<Tag>, dirs: nat)
  {
    forall i :: 0 <= i < |tags| ==> 0 <= tags[i].dir < dirs
  }

  /** None of the tags from `n` on is of this IFD from entry `index` on, and none at all of
      the IFDs visited before it. */
  ghost predicate NewOnly(tags: seq<Tag>, n: nat, before: seq<nat>, ifd: nat, index: nat)
  {
    forall i :: n <= i < |tags| ==> tags[i].ifd !in before && (tags[i].ifd == ifd ==> tags[i].index < index)
  }

  /** The IFDs visited after `n` are of the buffer. */
  ghost predicate NewInside(b: Buffer, visited: seq<nat>, n: nat)
  {
    forall i :: n <= i < |visited| ==> visited[i] < |b.p|
  }

  ghost function Below(n: nat): set<nat>
  {
    if n == 0 then {} else Below(n - 1) + {n - 1}
  }

  lemma {:induction false} BelowMember(n: nat, i: nat)
    ensures i in Below(n) <==> i < n
  {
    if n > 0 { BelowMember(n - 1, i); }
  }

  /** The offsets that the walk has still to do with: there are fewer and fewer. */
  ghost function Unvisited(b: Buffer, visited: seq<nat>): set<nat>
  {
    set x | x in Below(|b.p|) && x !in visited
  }

  /** No IFD was followed twice, no entry recorded twice, and every record is what its entry
      says, of a value in the buffer, in a directory that there is. */
  ghost predicate Sound(b: Buffer, base: nat, w: Walk)
  {
    && Distinct(w.visited) && Once(w.tags, w.visited) && AllRecorded(b, base, w.tags) && InDirs(w.tags, w.dirs)
    && |w.kinds| == |w.visited| == |w.caps| && w.dirs <= w.cap && KeptInPlace(w)
  }

  /** From one point of the walk to a later one, by way of `ifd`: the IFDs that are new are in
      the buffer and were read, and the records that are new are theirs. */
  ghost predicate Extends(b: Buffer, base: nat, ifd: nat, w: Walk, w': Walk)
  {
    && Later(w, w') && ifd in w'.visited
    && (forall i :: |w.visited| <= i < |w'.visited| ==> w'.visited[i] == ifd || w'.visited[i] < |b.p|)
    && (forall i :: |w.tags| <= i < |w'.tags| ==> w'.tags[i].ifd !in w.visited)
    && AllRead(b, base, w', |w.visited|)
  }

  /** The same in the middle of an IFD, after `n` entries; `cap` is the capacity of the vector
      when the IFD was entered. */
  ghost predicate Reading(b: Buffer, base: nat, ifd: nat, kind: nat, cap: nat, n: nat, w: Walk, w': Walk)
  {
    && Later(w, w') && |w.kinds| == |w.visited| == |w.caps|
    && w.visited + [ifd] <= w'.visited && w.kinds + [kind] <= w'.kinds && w.caps + [cap] <= w'.caps
    && cap <= w'.cap && (w'.cap == cap <==> w'.dirs <= cap)
    && ifd < |b.p| && ifd !in w.visited && ifd in w'.visited
    && NewInside(b, w'.visited, |w.visited|)
    && NewOnly(w'.tags, |w.tags|, w.visited, ifd, n)
    && ReadUpTo(b, base, ifd, kind, w', n)
    && AllRead(b, base, w', |w.visited| + 1)
  }

  /** From the IFD `ifd`, read as directory `kind`, the walk goes on to `to` as directory `kind'`:
      as thumbnails along the chain, or as what a pointer's tag says. */
  ghost predicate LeadsTo(b: Buffer, base: nat, ifd: nat, kind: int, to: nat, kind': int)
  {
    || (kind' == 4 && Follower(b, base, ifd, kind) == Some(to))
    || exists i :: 0 <= i < U16(b, ifd) && PointsTo(b, base, ifd, i, kind, to, kind')
  }

  ghost predicate PointsTo(b: Buffer, base: nat, ifd: nat, i: nat, kind: int, to: nat, kind': int)
  {
    && ValidEntry(b, base, ifd, i) && IsPointer(b, ifd, i, kind) && kind' == PointerKind(U16(b, ifd + 2 + 12 * i), kind)
    && S32(b, ifd + 2 + 12 * i + 8) >= 0 && to == base + S32(b, ifd + 2 + 12 * i + 8)
  }

  /** An earlier IFD led to the `i`th, and to the directory it was read as. */
  ghost predicate Reason(b: Buffer, base: nat, visited: seq<nat>, kinds: seq<nat>, i: nat)
    requires i < |visited| == |kinds|
  {
    exists j :: 0 <= j < i && LeadsTo(b, base, visited[j], kinds[j], visited[i], kinds[i])
  }

  /** After the first `n` IFDs came `ifd`, read as directory `kind`, and then only what earlier
      ones led to. */
  ghost predicate Routed(b: Buffer, base: nat, ifd: nat, kind: nat, n: nat, visited: seq<nat>, kinds: seq<nat>)
  {
    && n < |visited| == |kinds| && visited[n] == ifd && kinds[n] == kind
    && forall i :: n < i < |visited| ==> Reason(b, base, visited, kinds, i)
  }

  /** The walk from `to` in the middle of that from `ifd`. */
  lemma RoutedOn(b: Buffer, base: nat, ifd: nat, kind: nat, n: nat, v: Walk, w: Walk, to: nat, kind': nat)
    requires Routed(b, base, ifd, kind, n, v.visited, v.kinds) && LeadsTo(b, base, ifd, kind, to, kind')
    requires if to in v.visited then w == v
             else v.visited <= w.visited && v.kinds <= w.kinds && Routed(b, base, to, kind', |v.visited|, w.visited, w.kinds)
    ensures Routed(b, base, ifd, kind, n, w.visited, w.kinds)
  {
    hide LeadsTo;
    if to !in v.visited {
      forall i | n < i < |w.visited| ensures Reason(b, base, w.visited, w.kinds, i) {
        if i < |v.visited| {
          assert w.visited[i] == v.visited[i] && w.kinds[i] == v.kinds[i];
          assert Reason(b, base, v.visited, v.kinds, i);
          var j :| 0 <= j < i && LeadsTo(b, base, v.visited[j], v.kinds[j], v.visited[i], v.kinds[i]);
          assert w.visited[j] == v.visited[j] && w.kinds[j] == v.kinds[j];
        } else if i == |v.visited| {
          assert w.visited[n] == v.visited[n] == ifd && w.kinds[n] == v.kinds[n] == kind;
          assert LeadsTo(b, base, w.visited[n], w.kinds[n], w.visited[i], w.kinds[i]);
        }
      }
      assert w.visited[n] == v.visited[n] && w.kinds[n] == v.kinds[n];
    }
  }

  lemma RoutedFirst(b: Buffer, base: nat, ifd: nat, kind: nat, w: Walk, dirs: nat, cap: nat)
    requires |w.visited| == |w.kinds|
    ensures var w' := Entering(w, ifd, kind, dirs, cap); Routed(b, base, ifd, kind, |w.visited|, w'.visited, w'.kinds)
  {
  }

  // ------------------------------------------------------------------- the walk

  datatype Entry = Invalid | Pointer(to: nat, kind: nat) | DeadPointer | Value(tag: Tag)

  method ReadEntry(b: Buffer, base: nat, ifd: nat, i: nat, kind: int, cap: nat, w: Walk) returns (r: Entry)
    requires Legal(b, ifd) && i < U16(b, ifd) && Invalids(b, base, ifd, i) <= 5
    ensures r.Invalid? <==> !ValidEntry(b, base, ifd, i)
    ensures var e := ifd + 2 + 12 * i;
            var count, size, ptr := S32(b, e + 4), TypeSize(U16(b, e + 2)), S32(b, e + 8);
            && (r.Invalid? <==> count < 0 || size == 0 || (count * size > 4 && (ptr < 0 || base + ptr + count * size > |b.p|)))
            && (r.Pointer? || r.DeadPointer? <==> !r.Invalid? && count * size == 4 && kind != 4 && PointerKind(U16(b, e), kind) != -1)
            && (r.Value? ==> r.tag.tag == U16(b, e) && r.tag.kind == U16(b, e + 2) && r.tag.count == count
                             && r.tag.off == if count * size > 4 then base + ptr else e + 8)
    ensures r.Value? ==> !IsPointer(b, ifd, i, kind)
    ensures r.Value? ==> Recorded(b, base, r.tag) && r.tag.ifd == ifd && r.tag.index == i && r.tag.dir == kind && r.tag.room == w.dirs && r.tag.kept == (w.cap == cap)
    ensures r.Pointer? || r.DeadPointer? ==> IsPointer(b, ifd, i, kind)
    ensures r.Pointer? ==> r.to == base + S32(b, ifd + 2 + 12 * i + 8) < |b.p| && S32(b, ifd + 2 + 12 * i + 8) >= 0
    ensures r.Pointer? ==> r.kind == PointerKind(U16(b, ifd + 2 + 12 * i), kind) >= 1
    ensures r.DeadPointer? ==>
              !(S32(b, ifd + 2 + 12 * i + 8) >= 0 && base + S32(b, ifd + 2 + 12 * i + 8) < |b.p|)
  {
    var e := ifd + 2 + 12 * i;
    var tag, type_, count := U16(b, e), U16(b, e + 2), S32(b, e + 4);
    if count < 0 { return Invalid; }
    var size := TypeSize(type_);
    if size == 0 { return Invalid; }
    var total := count * size;
    var dataOff := e + 8;
    if total > 4 {
      var ptr := S32(b, e + 8);
      if ptr < 0 || base + ptr + total > |b.p| { return Invalid; }
      dataOff := base + ptr;
    }
    var ptrKind := PointerKind(tag, kind);
    if total == 4 && ptrKind >= 0 && kind != 4 {
      var ptr := S32(b, dataOff);
      return if ptr >= 0 && base + ptr < |b.p| then Pointer(base + ptr, ptrKind) else DeadPointer;
    }
    r := Value(Tag(kind, tag, type_, count, dataOff, ifd, i, w.dirs, w.cap == cap));
  }

  lemma NewOnlyNext(tags: seq<Tag>, n: nat, before: seq<nat>, ifd: nat, index: nat)
    requires NewOnly(tags, n, before, ifd, index)
    ensures NewOnly(tags, n, before, ifd, index + 1)
    ensures forall i :: n <= i < |tags| ==> tags[i].ifd !in before
  {
  }

  lemma InsideAll(b: Buffer, visited: seq<nat>, n: nat)
    requires NewInside(b, visited, n)
    ensures forall i :: n <= i < |visited| ==> visited[i] < |b.p|
  {
  }

  lemma UpToNext(b: Buffer, base: nat, ifd: nat, kind: int, w: Walk, n: nat)
    requires ReadUpTo(b, base, ifd, kind, w, n) && Done(b, base, ifd, kind, n, w)
    ensures ReadUpTo(b, base, ifd, kind, w, n + 1)
  {
    hide Done;
  }

  lemma AllReadNone(b: Buffer, base: nat, w: Walk)
    requires |w.kinds| == |w.visited| == |w.caps|
    ensures AllRead(b, base, w, |w.visited|)
  {
  }

  lemma AllReadFirst(b: Buffer, base: nat, w: Walk, n: nat)
    requires n < |w.visited| && AllRead(b, base, w, n + 1) && WasRead(b, base, w.visited[n], w.kinds[n], w)
    ensures AllRead(b, base, w, n)
  {
    hide WasRead;
  }

  lemma Entered(w: Walk, ifd: nat)
    requires Distinct(w.visited) && Once(w.tags, w.visited) && ifd !in w.visited
    ensures Distinct(w.visited + [ifd]) && Once(w.tags, w.visited + [ifd]) && NewOnly(w.tags, |w.tags|, w.visited, ifd, 0)
  {
  }

  lemma MoreDirs(tags: seq<Tag>, dirs: nat, dirs': nat)
    requires InDirs(tags, dirs) && dirs <= dirs'
    ensures InDirs(tags, dirs')
  {
  }

  function Entering(w: Walk, ifd: nat, kind: nat, dirs: nat, cap: nat): Walk
  {
    Walk(w.tags, dirs, cap, w.visited + [ifd], w.kinds + [kind], w.caps + [cap])
  }

  lemma ReadingStarts(b: Buffer, base: nat, ifd: nat, kind: nat, w: Walk, dirs: nat, cap: nat)
    requires Sound(b, base, w) && ifd !in w.visited && w.dirs <= dirs <= cap && w.cap <= cap
    requires cap == w.cap <==> dirs <= w.cap
    ensures var w' := Entering(w, ifd, kind, dirs, cap);
            && Sound(b, base, w')
            && (ifd < |b.p| ==> Reading(b, base, ifd, kind, cap, 0, w, w'))
            && (!Legal(b, ifd) ==> Extends(b, base, ifd, w, w'))
  {
    var w' := Entering(w, ifd, kind, dirs, cap);
    Entered(w, ifd);
    MoreDirs(w.tags, w.dirs, dirs);
    AllReadNone(b, base, w');
    assert forall k :: 0 <= k < |w.tags| ==> w.tags[k].ifd != ifd;
    hide Once, AllRecorded, InDirs, AllRead, NewOnly, Distinct, Done;
    if !Legal(b, ifd) { AllReadFirst(b, base, w', |w.visited|); }
  }

  lemma ReadingAt(b: Buffer, base: nat, ifd: nat, kind: nat, cap: nat, n: nat, w: Walk, w': Walk)
    requires Reading(b, base, ifd, kind, cap, n, w, w')
    ensures |w'.kinds| == |w'.visited| == |w'.caps| > |w.visited|
    ensures w'.visited[|w.visited|] == ifd && w'.kinds[|w.visited|] == kind && w'.caps[|w.visited|] == cap
  {
    assert (w.visited + [ifd])[|w.visited|] == ifd && (w.kinds + [kind])[|w.visited|] == kind;
    assert (w.caps + [cap])[|w.visited|] == cap;
    hide WasRead, ReadUpTo, NewOnly, NewInside;
  }

  lemma ReadingShrinks(b: Buffer, base: nat, ifd: nat, kind: nat, cap: nat, n: nat, w: Walk, w': Walk)
    requires Reading(b, base, ifd, kind, cap, n, w, w')
    ensures Unvisited(b, w'.visited) < Unvisited(b, w.visited)
  {
    hide AllRead, ReadUpTo, NewOnly, NewInside;
    BelowMember(|b.p|, ifd);
    assert ifd in Unvisited(b, w.visited) && ifd !in Unvisited(b, w'.visited);
    assert forall x :: x in w.visited ==> x in w'.visited;
  }

  /** An entry that leads nowhere. */
  lemma NothingRecorded(b: Buffer, base: nat, ifd: nat, kind: nat, cap: nat, n: nat, w: Walk, w': Walk)
    requires Reading(b, base, ifd, kind, cap, n, w, w') && Done(b, base, ifd, kind, n, w')
    ensures Reading(b, base, ifd, kind, cap, n + 1, w, w')
  {
    hide AllRead, ReadUpTo, Done, NewInside, NewOnly;
    NewOnlyNext(w'.tags, |w.tags|, w.visited, ifd, n);
    UpToNext(b, base, ifd, kind, w', n);
  }

  lemma TagsAdded(tags: seq<Tag>, tags': seq<Tag>, n: nat, before: seq<nat>, visited: seq<nat>, ifd: nat, index: nat)
    requires NewOnly(tags, n, before, ifd, index) && tags <= tags' && before <= visited && ifd in visited
    requires forall i :: |tags| <= i < |tags'| ==> tags'[i].ifd !in visited
    ensures NewOnly(tags', n, before, ifd, index)
  {
    assert forall x :: x in before ==> x in visited;
  }

  lemma InsideAdded(b: Buffer, visited: seq<nat>, visited': seq<nat>, n: nat, ifd: nat)
    requires NewInside(b, visited, n) && visited <= visited' && n <= |visited| && ifd < |b.p|
    requires forall i :: |visited| <= i < |visited'| ==> visited'[i] == ifd || visited'[i] < |b.p|
    ensures NewInside(b, visited', n)
  {
  }

  /** After another IFD was read in the middle of this one, this one goes on. */
  lemma ReadingResumes(b: Buffer, base: nat, ifd: nat, kind: nat, cap: nat, n: nat, w: Walk, v: Walk, w': Walk, to: nat)
    requires Reading(b, base, ifd, kind, cap, n, w, v) && Extends(b, base, to, v, w') && to < |b.p|
    ensures Reading(b, base, ifd, kind, cap, n, w, w') && to in w'.visited
  {
    ReadingAt(b, base, ifd, kind, cap, n, w, v);
    hide ReadUpTo, WasRead, NewOnly, NewInside, AllRead;
    TagsAdded(v.tags, w'.tags, |w.tags|, w.visited, v.visited, ifd, n);
    InsideAdded(b, v.visited, w'.visited, |w.visited|, to);
    AllReadLater(b, base, v, w', |w.visited| + 1);
    ReadLater(b, base, ifd, kind, v, w', n);
  }

  lemma ValueAdded(b: Buffer, base: nat, w: Walk, n: nat, before: seq<nat>, t: Tag)
    requires Sound(b, base, w) && NewOnly(w.tags, n, before, t.ifd, t.index) && n <= |w.tags|
    requires Recorded(b, base, t) && t.ifd in w.visited && t.ifd !in before && 0 <= t.dir < w.dirs
    requires forall i :: 0 <= i < n ==> w.tags[i].ifd in before
    requires forall i :: 0 <= i < |w.visited| && w.visited[i] == t.ifd ==> (t.kept <==> t.room <= w.caps[i])
    ensures var w' := w.(tags := w.tags + [t]);
            Sound(b, base, w') && NewOnly(w'.tags, n, before, t.ifd, t.index + 1) && Has(w'.tags, t.ifd, t.index, t.dir)
  {
    hide Recorded;
    assert (w.tags + [t])[|w.tags|] == t;
  }

  lemma OnlyOnce(b: Buffer, base: nat, w: Walk, k: nat)
    requires Sound(b, base, w) && k < |w.visited|
    ensures forall i :: 0 <= i < |w.visited| && w.visited[i] == w.visited[k] ==> i == k
  {
    hide Once, AllRecorded, InDirs, KeptInPlace;
  }

  lemma ValueRecorded(b: Buffer, base: nat, ifd: nat, kind: nat, cap: nat, n: nat, w: Walk, v: Walk, t: Tag)
    requires Reading(b, base, ifd, kind, cap, n, w, v) && Sound(b, base, v) && Sound(b, base, w) && kind < v.dirs
    requires Recorded(b, base, t) && t.ifd == ifd && t.index == n && t.dir == kind && !IsPointer(b, ifd, n, kind)
    requires t.room == v.dirs && t.kept == (v.cap == cap)
    ensures var w' := v.(tags := v.tags + [t]); Reading(b, base, ifd, kind, cap, n + 1, w, w') && Sound(b, base, w')
  {
    var w' := v.(tags := v.tags + [t]);
    ReadingAt(b, base, ifd, kind, cap, n, w, v);
    assert forall i :: 0 <= i < |w.tags| ==> w.tags[i].ifd in w.visited && v.tags[i] == w.tags[i];
    OnlyOnce(b, base, v, |w.visited|);
    hide AllRead, ReadUpTo, NewInside, NewOnly, Recorded, Sound, Has, ValidEntry, IsPointer;
    ValueAdded(b, base, v, |w.tags|, w.visited, t);
    AllReadNone(b, base, w');
    AllReadLater(b, base, v, w', |w.visited| + 1);
    ReadLater(b, base, ifd, kind, v, w', n);
    UpToNext(b, base, ifd, kind, w', n);
  }

  lemma ReadingEnds(b: Buffer, base: nat, ifd: nat, kind: nat, cap: nat, n: nat, w: Walk, w': Walk)
    requires Reading(b, base, ifd, kind, cap, n, w, w')
    requires Invalids(b, base, ifd, U16(b, ifd)) > 5
             || (n == U16(b, ifd) && FollowerSeen(b, base, ifd, kind, w'.visited))
    ensures Extends(b, base, ifd, w, w')
  {
    ReadingAt(b, base, ifd, kind, cap, n, w, w');
    hide AllRead, ReadUpTo, NewInside, NewOnly, Follower;
    AllReadFirst(b, base, w', |w.visited|);
    NewOnlyNext(w'.tags, |w.tags|, w.visited, ifd, n);
    InsideAll(b, w'.visited, |w.visited|);
  }

  // --------------------------------------------------------- the first IFD

  /** The entry leads to another IFD that is read and gets a directory of its own. */
  predicate Opens(b: Buffer, base: nat, ifd: nat, i: nat)
  {
    var ptr := S32(b, ifd + 2 + 12 * i + 8);
    && ValidEntry(b, base, ifd, i) && IsPointer(b, ifd, i, 0)
    && ptr >= 0 && base + ptr < |b.p| && base + ptr != ifd && Legal(b, base + ptr)
  }

  /** Some entry before the `n`th does. */
  predicate OpensBefore(b: Buffer, base: nat, ifd: nat, n: nat)
  {
    n > 0 && (Opens(b, base, ifd, n - 1) || OpensBefore(b, base, ifd, n - 1))
  }

  ghost predicate Wrote(tags: seq<Tag>, ifd: nat, i: nat, kept: bool)
  {
    exists k :: 0 <= k < |tags| && tags[k].ifd == ifd && tags[k].index == i && tags[k].kept == kept
  }

  /** The values of the first IFD before the `n`th are in their directory up to the first
      pointer that opens another directory, and not from there on. */
  ghost predicate RootKept(b: Buffer, base: nat, ifd: nat, tags: seq<Tag>, n: nat)
  {
    forall i :: 0 <= i < n && ValidEntry(b, base, ifd, i) && !IsPointer(b, ifd, i, 0) ==>
      Wrote(tags, ifd, i, !OpensBefore(b, base, ifd, i))
  }

  ghost predicate RootReading(b: Buffer, base: nat, ifd: nat, n: nat, w: Walk)
  {
    && RootKept(b, base, ifd, w.tags, n)
    && if OpensBefore(b, base, ifd, n) then w.dirs >= 2
       else w.dirs == 1 && forall i :: 0 <= i < |w.visited| ==> w.visited[i] == ifd || !Legal(b, w.visited[i])
  }

  lemma WroteLater(tags: seq<Tag>, tags': seq<Tag>, ifd: nat, i: nat, kept: bool)
    requires Wrote(tags, ifd, i, kept) && tags <= tags'
    ensures Wrote(tags', ifd, i, kept)
  {
    var k :| 0 <= k < |tags| && tags[k].ifd == ifd && tags[k].index == i && tags[k].kept == kept;
    assert tags'[k] == tags[k];
  }

  lemma RootKeptLater(b: Buffer, base: nat, ifd: nat, tags: seq<Tag>, tags': seq<Tag>, n: nat)
    requires RootKept(b, base, ifd, tags, n) && tags <= tags'
    ensures RootKept(b, base, ifd, tags', n)
  {
    hide ValidEntry, IsPointer, OpensBefore, Wrote;
    forall i | 0 <= i < n && Wrote(tags, ifd, i, !OpensBefore(b, base, ifd, i))
      ensures Wrote(tags', ifd, i, !OpensBefore(b, base, ifd, i))
    {
      WroteLater(tags, tags', ifd, i, !OpensBefore(b, base, ifd, i));
    }
  }

  /** An entry that is no pointer, written down or invalid. */
  lemma RootValue(b: Buffer, base: nat, ifd: nat, n: nat, w: Walk, w': Walk)
    requires RootReading(b, base, ifd, n, w) && w.dirs == w'.dirs && w.visited == w'.visited && w.tags <= w'.tags
    requires !ValidEntry(b, base, ifd, n) || IsPointer(b, ifd, n, 0) || Wrote(w'.tags, ifd, n, w.dirs <= 1)
    requires !Opens(b, base, ifd, n)
    ensures RootReading(b, base, ifd, n + 1, w')
  {
    hide ValidEntry, IsPointer, Wrote, Opens, Legal;
    RootKeptLater(b, base, ifd, w.tags, w'.tags, n);
  }

  lemma RootPointer(b: Buffer, base: nat, ifd: nat, n: nat, to: nat, w: Walk, w': Walk)
    requires RootReading(b, base, ifd, n, w) && w.tags <= w'.tags && w.dirs <= w'.dirs && ifd in w.visited
    requires ValidEntry(b, base, ifd, n) && IsPointer(b, ifd, n, 0)
    requires S32(b, ifd + 2 + 12 * n + 8) >= 0 && to == base + S32(b, ifd + 2 + 12 * n + 8) < |b.p|
    requires if to in w.visited || !Legal(b, to) then w'.dirs == w.dirs && w'.visited <= w.visited + [to] else w'.dirs >= 2
    requires to in w.visited ==> w'.visited == w.visited
    ensures RootReading(b, base, ifd, n + 1, w')
  {
    hide Legal, ValidEntry, IsPointer, Wrote;
    RootKeptLater(b, base, ifd, w.tags, w'.tags, n);
    hide RootKept;
    if to in w.visited || !Legal(b, to) {
      forall i | 0 <= i < |w'.visited| ensures w'.visited[i] in w.visited || w'.visited[i] == to {
        assert w'.visited[i] == (w.visited + [to])[i];
      }
    }
    assert RootKept(b, base, ifd, w'.tags, n + 1) by { RootKeptStep(b, base, ifd, w'.tags, n); }
  }

  lemma RootKeptStep(b: Buffer, base: nat, ifd: nat, tags: seq<Tag>, n: nat)
    requires RootKept(b, base, ifd, tags, n) && IsPointer(b, ifd, n, 0)
    ensures RootKept(b, base, ifd, tags, n + 1)
  {
    hide ValidEntry, IsPointer, OpensBefore, Wrote;
  }

  /** The walk ends on every buffer, follows no IFD twice and every IFD that it should, and
      writes down what the entries say and only values that lie in the buffer.  A value gets
      into its directory if and only if the vector of directories has not moved since its IFD
      was entered (`KeptInPlace`); of the very first IFD, if and only if no pointer before it
      opened another directory. */
  method ParseIfd(b: Buffer, base: nat, ifd: nat, kind: nat, w: Walk) returns (w': Walk)
    requires Sound(b, base, w)
    ensures Sound(b, base, w') && Extends(b, base, ifd, w, w')
    ensures if ifd in w.visited || !Legal(b, ifd) then w'.dirs == w.dirs else w'.dirs > kind
    ensures if ifd in w.visited then w' == w else !Legal(b, ifd) ==> w'.visited == w.visited + [ifd]
    ensures ifd !in w.visited ==> Routed(b, base, ifd, kind, |w.visited|, w'.visited, w'.kinds)
    ensures w == Walk([], 0, 0, [], [], []) && kind == 0 && Legal(b, ifd) && Invalids(b, base, ifd, U16(b, ifd)) <= 5 ==>
              RootKept(b, base, ifd, w'.tags, U16(b, ifd))
    decreases Unvisited(b, w.visited)
  {
    hide Sound, Extends, Reading, Unvisited, U16, S32, Recorded, ValidEntry, IsPointer, AllRead, Displaced, Invalids, Has;
    hide RootReading, RootKept, Opens, OpensBefore, Routed, LeadsTo;
    if ifd in w.visited {
      Unmoved(b, base, ifd, w);
      return w;
    }
    NoInvalids(b, base, ifd);
    SoundSizes(b, base, w);
    var cap := w.cap;
    w' := Entering(w, ifd, kind, w.dirs, cap);
    ReadingStarts(b, base, ifd, kind, w, w.dirs, cap);
    RoutedFirst(b, base, ifd, kind, w, w.dirs, cap);
    if ifd >= |b.p| { return; }
    var count := U16(b, ifd);
    if 2 + 12 * count + 4 + ifd > |b.p| { return; }
    var dirs;
    dirs, cap := MakeDirs(w.dirs, w.cap, kind);
    w' := Entering(w, ifd, kind, dirs, cap);
    ReadingStarts(b, base, ifd, kind, w, dirs, cap);
    RoutedFirst(b, base, ifd, kind, w, dirs, cap);
    ghost var root := w == Walk([], 0, 0, [], [], []) && kind == 0;
    if root { RootStarts(b, base, ifd, w'); }
    var errors := 0;
    for i := 0 to count
      invariant kind < w'.dirs && errors == Invalids(b, base, ifd, i) <= 5
      invariant Sound(b, base, w') && Reading(b, base, ifd, kind, cap, i, w, w')
      invariant root ==> cap == 1 && RootReading(b, base, ifd, i, w')
      invariant Routed(b, base, ifd, kind, |w.visited|, w'.visited, w'.kinds)
    {
      var entry := ReadEntry(b, base, ifd, i, kind, cap, w');
      NextInvalid(b, base, ifd, i);
      ghost var v := w';
      match entry
      case Invalid =>
        NothingRecorded(b, base, ifd, kind, cap, i, w, w');
        errors := errors + 1;
        if errors > 5 {
          InvalidsGrow(b, base, ifd, i + 1, count);
          ReadingEnds(b, base, ifd, kind, cap, i + 1, w, w');
          return;
        }
        if root { RootNothing(b, base, ifd, i, w'); }
      case DeadPointer =>
        NothingRecorded(b, base, ifd, kind, cap, i, w, w');
        if root { RootNothing(b, base, ifd, i, w'); }
      case Pointer(to, ptrKind) =>
        ReadingShrinks(b, base, ifd, kind, cap, i, w, w');
        ReadingVisits(b, base, ifd, kind, cap, i, w, w');
        w' := ParseIfd(b, base, to, ptrKind, w');
        ReadingResumes(b, base, ifd, kind, cap, i, w, v, w', to);
        DirsLater(b, base, to, v, w');
        PointerLeads(b, base, ifd, i, kind, to, ptrKind);
        RoutedOn(b, base, ifd, kind, |w.visited|, v, w', to, ptrKind);
        NothingRecorded(b, base, ifd, kind, cap, i, w, w');
        if root { RootPointer(b, base, ifd, i, to, v, w'); }
      case Value(t) =>
        ValueRecorded(b, base, ifd, kind, cap, i, w, w', t);
        w' := w'.(tags := w'.tags + [t]);
        if root { RootWrote(b, base, ifd, kind, i, w, v, w', t); }
    }
    var next := S32(b, ifd + 2 + 12 * count);
    if root { RootRead(b, base, ifd, count, w'); }
    if next != 0 {
      var nextAbs := Displaced(base, next);
      if nextAbs < |b.p| && nextAbs >= ifd && HasFollower(kind) {
        ReadingShrinks(b, base, ifd, kind, cap, count, w, w');
        ghost var v := w';
        w' := ParseIfd(b, base, nextAbs, 4, w');
        ReadingResumes(b, base, ifd, kind, cap, count, w, v, w', nextAbs);
        DirsLater(b, base, nextAbs, v, w');
        ChainLeads(b, base, ifd, kind, nextAbs);
        RoutedOn(b, base, ifd, kind, |w.visited|, v, w', nextAbs, 4);
        if root { RootKeptLater(b, base, ifd, v.tags, w'.tags, count); }
      }
    }
    ReadingEnds(b, base, ifd, kind, cap, count, w, w');
  }

  lemma SoundSizes(b: Buffer, base: nat, w: Walk)
    requires Sound(b, base, w)
    ensures w.dirs <= w.cap && |w.kinds| == |w.visited| == |w.caps|
  {
  }

  lemma RootStarts(b: Buffer, base: nat, ifd: nat, w: Walk)
    requires w.tags == [] && w.dirs == 1 && w.visited == [] + [ifd]
    ensures RootReading(b, base, ifd, 0, w)
  {
  }

  lemma RootRead(b: Buffer, base: nat, ifd: nat, n: nat, w: Walk)
    requires RootReading(b, base, ifd, n, w)
    ensures RootKept(b, base, ifd, w.tags, n)
  {
  }

  /** An entry that leads nowhere. */
  lemma RootNothing(b: Buffer, base: nat, ifd: nat, n: nat, w: Walk)
    requires RootReading(b, base, ifd, n, w)
    requires !ValidEntry(b, base, ifd, n)
             || (IsPointer(b, ifd, n, 0)
                 && !(S32(b, ifd + 2 + 12 * n + 8) >= 0 && base + S32(b, ifd + 2 + 12 * n + 8) < |b.p|))
    ensures RootReading(b, base, ifd, n + 1, w)
  {
    hide ValidEntry, IsPointer, RootReading;
    assert !Opens(b, base, ifd, n);
    RootValue(b, base, ifd, n, w, w);
  }

  lemma ReadingVisits(b: Buffer, base: nat, ifd: nat, kind: nat, cap: nat, n: nat, w: Walk, w': Walk)
    requires Reading(b, base, ifd, kind, cap, n, w, w')
    ensures ifd in w'.visited
  {
  }

  lemma RootWrote(b: Buffer, base: nat, ifd: nat, kind: nat, n: nat, w: Walk, v: Walk, w': Walk, t: Tag)
    requires RootReading(b, base, ifd, n, v) && Reading(b, base, ifd, kind, 1, n, w, v)
    requires w' == v.(tags := v.tags + [t]) && t.ifd == ifd && t.index == n && t.kept == (v.cap == 1)
    requires !IsPointer(b, ifd, n, 0)
    ensures RootReading(b, base, ifd, n + 1, w')
  {
    assert v.cap == 1 <==> v.dirs <= 1;
    hide Reading, RootReading, ValidEntry, IsPointer;
    assert w'.tags[|v.tags|] == t;
    assert Wrote(w'.tags, ifd, n, v.dirs <= 1);
    assert !Opens(b, base, ifd, n);
    RootValue(b, base, ifd, n, v, w');
  }

  lemma PointerLeads(b: Buffer, base: nat, ifd: nat, i: nat, kind: nat, to: nat, kind': nat)
    requires i < U16(b, ifd) && ValidEntry(b, base, ifd, i) && IsPointer(b, ifd, i, kind)
    requires kind' == PointerKind(U16(b, ifd + 2 + 12 * i), kind)
    requires S32(b, ifd + 2 + 12 * i + 8) >= 0 && to == base + S32(b, ifd + 2 + 12 * i + 8)
    ensures LeadsTo(b, base, ifd, kind, to, kind')
  {
    hide ValidEntry, IsPointer, U16, S32, Follower;
    assert PointsTo(b, base, ifd, i, kind, to, kind');
  }

  lemma ChainLeads(b: Buffer, base: nat, ifd: nat, kind: nat, to: nat)
    requires Follower(b, base, ifd, kind) == Some(to)
    ensures LeadsTo(b, base, ifd, kind, to, 4)
  {
    hide PointsTo, Follower;
  }

  lemma DirsLater(b: Buffer, base: nat, ifd: nat, w: Walk, w': Walk)
    requires Extends(b, base, ifd, w, w')
    ensures w.dirs <= w'.dirs && w.tags <= w'.tags && w.visited <= w'.visited && w.kinds <= w'.kinds
  {
  }

  lemma Unmoved(b: Buffer, base: nat, ifd: nat, w: Walk)
    requires Sound(b, base, w) && ifd in w.visited
    ensures Extends(b, base, ifd, w, w)
  {
  }

  lemma {:induction false} DistinctBelow(visited: seq<nat>, n: nat)
    requires Distinct(visited) && forall i :: 0 <= i < |visited| ==> visited[i] < n
    ensures |visited| <= n
  {
    if visited != [] {
      assert 0 <= visited[0] < n;
      if n - 1 in visited {
        var i :| 0 <= i < |visited| && visited[i] == n - 1;
        DistinctBelow(visited[..i] + visited[i + 1..], n - 1);
      } else {
        DistinctBelow(visited, n - 1);
      }
    }
  }

  /** A TIFF block begins here, in the byte order that the buffer is read in. */
  predicate IsTiff(b: Buffer, start: nat)
  {
    && start + 8 <= |b.p|
    && b.p[start] == b.p[start + 1] == (if b.bigEndian then 'M' as int else 'I' as int)
    && U16(b, start + 2) in {42, 20306, 21330, 85}
  }

  function FirstIfd(b: Buffer, start: nat): nat
  {
    var first := S32(b, start + 4);
    if first < 0 || first + start >= |b.p| - 1 then start + 8 else start + first
  }

  lemma NothingWalked(p: seq<byte>, start: nat)
    ensures forall b :: Sound(b, start, Walk([], 0, 0, [], [], [])) && AllRead(b, start, Walk([], 0, 0, [], [], []), 0)
  {
  }

  lemma FewVisited(b: Buffer, base: nat, ifd: nat, w: Walk)
    requires Sound(b, base, w) && Extends(b, base, ifd, Walk([], 0, 0, [], [], []), w) && ifd <= |b.p|
    ensures |w.visited| <= |b.p| + 1 && AllRead(b, base, w, 0)
  {
    DistinctBelow(w.visited, |b.p| + 1);
    hide AllRead;
  }

  predicate BigEndian(p: seq<byte>, start: nat)
  {
    start + 8 <= |p| && p[start] == p[start + 1] == 'M' as int
  }

  /** The block's header, and the walk from its first IFD. */
  method ParseTiff(p: seq<byte>, start: nat) returns (found: bool, w: Walk, b: Buffer)
    ensures b == Buffer(p, BigEndian(p, start)) && Sound(b, start, w) && AllRead(b, start, w, 0)
    ensures |w.visited| <= |p| + 1 && found == (w.dirs > 0)
    ensures found ==> Routed(b, start, FirstIfd(b, start), 0, 0, w.visited, w.kinds)
    ensures found <==> IsTiff(b, start) && Legal(b, FirstIfd(b, start))
    ensures found <==>
              && start + 8 <= |p| && (p[start] == p[start + 1] == 'M' as int || p[start] == p[start + 1] == 'I' as int)
              && U16(b, start + 2) in {42, 20306, 21330, 85}
              && var first := S32(b, start + 4);
                 var ifd := if 0 <= first && start + first < |p| - 1 then start + first else start + 8;
                 ifd + 2 + 12 * U16(b, ifd) + 4 <= |p|
    ensures b.bigEndian <==> start + 8 <= |p| && p[start] == p[start + 1] == 'M' as int
    ensures found && Invalids(b, start, FirstIfd(b, start), U16(b, FirstIfd(b, start))) <= 5 ==>
              RootKept(b, start, FirstIfd(b, start), w.tags, U16(b, FirstIfd(b, start)))
  {
    hide Invalids, RootKept, Sound, Extends, AllRead, S32, Routed;
    NothingWalked(p, start);
    w, b, found := Walk([], 0, 0, [], [], []), Buffer(p, false), false;
    if start + 8 > |p| { return; }
    if p[start] == 'M' as int && p[start + 1] == 'M' as int {
      b := Buffer(p, true);
    } else if !(p[start] == 'I' as int && p[start + 1] == 'I' as int) {
      return;
    }
    var magic := U16(b, start + 2);
    if magic != 42 && magic != 20306 && magic != 21330 && magic != 85 { return; }
    var first := S32(b, start + 4);
    var ifd := if first < 0 || first + start >= |p| - 1 then start + 8 else start + first;
    w := ParseIfd(b, start, ifd, 0, w);
    FewVisited(b, start, ifd, w);
    found := w.dirs > 0;
  }

  /** 38 bytes of header and first IFD, whose entries are an Exif pointer and an orientation,
      and an Exif IFD without entries. */
  const EXIF_FIRST: seq<byte> :=
    [0x49, 0x49, 42, 0, 8, 0, 0, 0]
    + [2, 0]
    + [0x69, 0x87, 4, 0, 1, 0, 0, 0, 38, 0, 0, 0]
    + [0x12, 0x01, 3, 0, 1, 0, 0, 0, 6, 0, 0, 0]
    + [0, 0, 0, 0]
    + [0, 0, 0, 0, 0, 0]

  /** The orientation does not get into its directory. */
  method OrientationLost() returns (w: Walk)
    ensures Wrote(w.tags, 8, 1, false) && !Wrote(w.tags, 8, 1, true)
    ensures U16(Buffer(EXIF_FIRST, false), 22) == 0x0112
  {
    hide Sound, AllRead, RootKept, OpensBefore, IsTiff, FirstIfd, Legal, U16, ValidEntry, IsPointer, Invalids, Wrote;
    ExifFirst();
    var found, b;
    found, w, b := ParseTiff(EXIF_FIRST, 0);
    assert found;
    RootWritten(b, 0, 8, w.tags, 2, 1);
    WrittenOnce(b, 0, w, 8, 1);
  }

  lemma RootWritten(b: Buffer, base: nat, ifd: nat, tags: seq<Tag>, n: nat, i: nat)
    requires RootKept(b, base, ifd, tags, n) && i < n && ValidEntry(b, base, ifd, i) && !IsPointer(b, ifd, i, 0)
    ensures Wrote(tags, ifd, i, !OpensBefore(b, base, ifd, i))
  {
  }

  lemma WrittenOnce(b: Buffer, base: nat, w: Walk, ifd: nat, i: nat)
    requires Sound(b, base, w)
    ensures !(Wrote(w.tags, ifd, i, true) && Wrote(w.tags, ifd, i, false))
  {
    hide AllRecorded, InDirs, KeptInPlace, Distinct;
  }

  lemma ExifFirst()
    ensures var b := Buffer(EXIF_FIRST, false);
            && !BigEndian(EXIF_FIRST, 0) && IsTiff(b, 0) && FirstIfd(b, 0) == 8 && Legal(b, 8) && U16(b, 8) == 2
            && ValidEntry(b, 0, 8, 1) && !IsPointer(b, 8, 1, 0) && Invalids(b, 0, 8, 2) == 0 && OpensBefore(b, 0, 8, 1)
            && U16(b, 22) == 0x0112
  {
    hide U16, S32;
    ExifWords(EXIF_FIRST);
    ExifNumbers(Buffer(EXIF_FIRST, false));
  }

  lemma ExifWords(p: seq<byte>)
    requires |p| == 44 && p[2] == 42 && p[3] == 0 && p[4] == 8 && p[5] == p[6] == p[7] == 0
    requires p[8] == 2 && p[9] == 0 && p[10] == 0x69 && p[11] == 0x87 && p[12] == 4 && p[13] == 0
    requires p[14] == 1 && p[15] == p[16] == p[17] == 0 && p[18] == 38 && p[19] == p[20] == p[21] == 0
    requires p[22] == 0x12 && p[23] == 1 && p[24] == 3 && p[25] == 0 && p[26] == 1 && p[27] == p[28] == p[29] == 0
    requires p[38] == p[39] == 0
    ensures var b := Buffer(p, false);
            && U16(b, 2) == 42 && S32(b, 4) == 8 && U16(b, 8) == 2 && U16(b, 10) == 0x8769 && U16(b, 12) == 4
            && S32(b, 14) == 1 && S32(b, 18) == 38 && U16(b, 22) == 0x0112 && U16(b, 24) == 3 && S32(b, 26) == 1
            && U16(b, 38) == 0
  {
    hide U16, S32;
    Number16(p, 2);
    Number32(p, 4);
    Number16(p, 8);
    Number16(p, 10);
    Number16(p, 12);
    Number32(p, 14);
    Number32(p, 18);
    Number16(p, 22);
    Number16(p, 24);
    Number32(p, 26);
    Number16(p, 38);
  }

  lemma Number16(p: seq<byte>, o: nat)
    requires o + 2 <= |p|
    ensures U16(Buffer(p, false), o) == p[o] + 256 * p[o + 1] as int
  {
  }

  lemma Number32(p: seq<byte>, o: nat)
    requires o + 4 <= |p| && p[o + 3] == 0
    ensures S32(Buffer(p, false), o) == p[o] + 256 * p[o + 1] as int + 0x1_0000 * p[o + 2] as int
  {
  }

  lemma ExifNumbers(b: Buffer)
    requires |b.p| == 44 && !b.bigEndian && b.p[0] == b.p[1] == 0x49
    requires U16(b, 2) == 42 && S32(b, 4) == 8 && U16(b, 8) == 2 && U16(b, 10) == 0x8769 && U16(b, 12) == 4 && S32(b, 14) == 1
    requires S32(b, 18) == 38 && U16(b, 22) == 0x0112 && U16(b, 24) == 3 && S32(b, 26) == 1 && U16(b, 38) == 0
    ensures !BigEndian(b.p, 0) && IsTiff(b, 0) && FirstIfd(b, 0) == 8 && Legal(b, 8)
    ensures ValidEntry(b, 0, 8, 1) && !IsPointer(b, 8, 1, 0) && Invalids(b, 0, 8, 2) == 0 && OpensBefore(b, 0, 8, 1)
  {
    hide U16, S32;
    assert ValidEntry(b, 0, 8, 0) && IsPointer(b, 8, 0, 0);
    assert Opens(b, 0, 8, 0);
    assert ValidEntry(b, 0, 8, 1);
    hide ValidEntry, Opens;
    NoInvalids(b, 0, 8);
    NextInvalid(b, 0, 8, 0);
    NextInvalid(b, 0, 8, 1);
  }
}
