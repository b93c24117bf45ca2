/** The anchored signature scan, against a scan that tries every offset of every range. */
module Scan {
  import opened Bytes
  import opened Wrappers

  const BYTE_VALUE_COUNT: nat := 256
  const FINGERPRINT_CAPACITY: nat := 96

  datatype PatternByte = PatternByte(value: byte, exact: bool)

  datatype Pattern = Pattern(name: string, bytes: seq<PatternByte>)

  /** One mapped range: where it starts, and its bytes. */
  datatype ImageRange = ImageRange(address: nat, bytes: seq<byte>)

  datatype Match = Invalid | Missing | Unique(address: nat) | Ambiguous

  /** One place a pattern matches: a range of the image, and an offset in it. */
  datatype Hit = Hit(range: nat, offset: nat)

  // ---- the scan that tries every offset ----------------------------------------------------

  predicate MatchAt(bytes: seq<byte>, pattern: seq<PatternByte>, offset: nat) {
    && offset + |pattern| <= |bytes|
    && forall k :: 0 <= k < |pattern| && pattern[k].exact ==> bytes[offset + k] == pattern[k].value
  }

  /** A match is a stretch of the range as long as the pattern, equal to it wherever the pattern is exact. */
  lemma MatchMeans(bytes: seq<byte>, pattern: seq<PatternByte>, offset: nat)
    ensures MatchAt(bytes, pattern, offset) <==>
            exists before, word, after :: bytes == before + word + after && |before| == offset && Spells(word, pattern)
  {
    if MatchAt(bytes, pattern, offset) {
      var end := offset + |pattern|;
      var word := bytes[offset..end];
      assert bytes == bytes[..offset] + word + bytes[end..];
      assert Spells(word, pattern);
    }
    forall before: seq<byte>, word: seq<byte>, after: seq<byte> |
      bytes == before + word + after && |before| == offset && Spells(word, pattern)
      ensures MatchAt(bytes, pattern, offset)
    {
      assert forall k :: 0 <= k < |pattern| ==> bytes[offset + k] == word[k];
    }
  }

  ghost predicate Spells(word: seq<byte>, pattern: seq<PatternByte>) {
    |word| == |pattern| && forall k :: 0 <= k < |word| ==> !pattern[k].exact || word[k] == pattern[k].value
  }

  /** A pattern that can be scanned: it has a name and at least one exact byte. */
  predicate Scannable(p: Pattern) {
    p.name != "" && exists k :: 0 <= k < |p.bytes| && p.bytes[k].exact
  }

  /** Every match of one range from an offset on. */
  function RangeHits(bytes: seq<byte>, pattern: seq<PatternByte>, range: nat, from: nat): seq<Hit>
    decreases |bytes| - from
  {
    if from + |pattern| > |bytes| || from >= |bytes| then []
    else (if MatchAt(bytes, pattern, from) then [Hit(range, from)] else []) + RangeHits(bytes, pattern, range, from + 1)
  }

  /** Every match of the ranges from one on, in scan order. */
  function Hits(image: seq<ImageRange>, pattern: seq<PatternByte>, range: nat): seq<Hit>
    decreases |image| - range
  {
    if range >= |image| then []
    else RangeHits(image[range].bytes, pattern, range, 0) + Hits(image, pattern, range + 1)
  }

  ghost predicate IsHit(image: seq<ImageRange>, pattern: seq<PatternByte>, h: Hit) {
    h.range < |image| && MatchAt(image[h.range].bytes, pattern, h.offset)
  }

  predicate Before(a: Hit, b: Hit) {
    a.range < b.range || (a.range == b.range && a.offset < b.offset)
  }

  ghost predicate Ordered(hits: seq<Hit>) {
    forall i, j :: 0 <= i < j < |hits| ==> Before(hits[i], hits[j])
  }

  function Address(image: seq<ImageRange>, h: Hit): nat
    requires h.range < |image|
  {
    image[h.range].address + h.offset
  }

  lemma {:induction false} RangeHitsExact(bytes: seq<byte>, pattern: seq<PatternByte>, range: nat, from: nat)
    requires pattern != []
    ensures forall h :: h in RangeHits(bytes, pattern, range, from) <==>
                          h.range == range && h.offset >= from && MatchAt(bytes, pattern, h.offset)
    ensures Ordered(RangeHits(bytes, pattern, range, from))
    decreases |bytes| - from
  {
    if from + |pattern| <= |bytes| {
      RangeHitsExact(bytes, pattern, range, from + 1);
    }
  }

  /** The hits are exactly the matching (range, offset) pairs, each once, in scan order. */
  lemma {:induction false} HitsExact(image: seq<ImageRange>, pattern: seq<PatternByte>, range: nat)
    requires pattern != []
    ensures forall h :: h in Hits(image, pattern, range) <==> h.range >= range && IsHit(image, pattern, h)
    ensures Ordered(Hits(image, pattern, range))
    decreases |image| - range
  {
    if range < |image| {
      RangeHitsExact(image[range].bytes, pattern, range, 0);
      HitsExact(image, pattern, range + 1);
    }
  }

  /** Offsets without a match add nothing. */
  lemma {:induction false} SkipTo(bytes: seq<byte>, pattern: seq<PatternByte>, range: nat, from: nat, end: nat)
    requires from <= end && forall o :: from <= o < end ==> !MatchAt(bytes, pattern, o)
    ensures RangeHits(bytes, pattern, range, from) == RangeHits(bytes, pattern, range, end)
    decreases end
  {
    if from < end {
      SkipTo(bytes, pattern, range, from, end - 1);
    }
  }

  // ---- the byte histogram and its cache ----------------------------------------------------

  /** The ranges a histogram was counted over. */
  datatype Fingerprint = Fingerprint(ranges: seq<(nat, nat)>, valid: bool)

  function Places(image: seq<ImageRange>): (r: seq<(nat, nat)>)
    ensures |r| == |image|
  {
    seq(|image|, k requires 0 <= k < |image| => (image[k].address, |image[k].bytes|))
  }

  function FingerprintOf(image: seq<ImageRange>): Fingerprint {
    if |image| > FINGERPRINT_CAPACITY then Fingerprint([], false) else Fingerprint(Places(image), true)
  }

  predicate SameRanges(a: Fingerprint, b: Fingerprint) {
    a.valid && b.valid && a.ranges == b.ranges
  }

  function Occurrences(bytes: seq<byte>, v: byte): nat {
    if bytes == [] then 0
    else Occurrences(bytes[..|bytes| - 1], v) + if bytes[|bytes| - 1] == v then 1 else 0
  }

  function ImageOccurrences(image: seq<ImageRange>, v: byte): nat {
    if image == [] then 0
    else ImageOccurrences(image[..|image| - 1], v) + Occurrences(image[|image| - 1].bytes, v)
  }

  class FrequencyCache {
    var fingerprint: Fingerprint
    var counts: seq<nat>

    ghost predicate Valid()
      reads this
    {
      |counts| == BYTE_VALUE_COUNT
    }

    constructor ()
      ensures Valid() && !fingerprint.valid
    {
      fingerprint, counts := Fingerprint([], false), seq(BYTE_VALUE_COUNT, _ => 0);
    }

    /** The histogram of a range set, counted afresh. */
    method CountBytes(image: seq<ImageRange>)
      modifies this`counts
      ensures Valid() && forall v: byte :: counts[v] == ImageOccurrences(image, v)
    {
      counts := seq(BYTE_VALUE_COUNT, _ => 0);
      for r := 0 to |image|
        invariant Valid() && forall v: byte :: counts[v] == ImageOccurrences(image[..r], v)
      {
        ghost var before := counts;
        var bytes := image[r].bytes;
        for k := 0 to |bytes|
          invariant Valid() && forall v: byte :: counts[v] == before[v] + Occurrences(bytes[..k], v)
        {
          assert bytes[..k + 1][..k] == bytes[..k];
          counts := counts[bytes[k] := counts[bytes[k]] + 1];
        }
        assert bytes[..|bytes|] == bytes && image[..r + 1][..r] == image[..r];
      }
      assert image[..|image|] == image;
    }

    /**
     * The histogram of one range set, rebuilt only when the ranges differ from the last ones. A hit
     * may be stale: it says nothing about the bytes now in the ranges.
     */
    method ByteCounts(image: seq<ImageRange>) returns (result: seq<nat>)
      requires Valid()
      modifies this
      ensures Valid() && result == counts && |result| == BYTE_VALUE_COUNT
      ensures if SameRanges(old(fingerprint), FingerprintOf(image))
              then result == old(counts) && fingerprint == old(fingerprint)
              else fingerprint == FingerprintOf(image) && forall v: byte :: result[v] == ImageOccurrences(image, v)
    {
      var wanted := FingerprintOf(image);
      if !SameRanges(fingerprint, wanted) {
        CountBytes(image);
        fingerprint := wanted;
      }
      result := counts;
    }
  }

  // ---- the anchored scan -------------------------------------------------------------------

  /** An exact byte of a pattern, by which its candidates are found. */
  datatype Anchor = Anchor(index: nat, value: byte)

  /** An exact byte of the pattern. */
  predicate Anchors(a: Anchor, pattern: seq<PatternByte>) {
    a.index < |pattern| && pattern[a.index] == PatternByte(a.value, true)
  }

  lemma AnchoredSome(a: Anchor, pattern: seq<PatternByte>)
    requires Anchors(a, pattern)
    ensures pattern != []
  {}

  /** Picks the rarest exact byte, the earliest on a tie; none exactly when the pattern cannot be scanned. */
  method AnchorOf(p: Pattern, counts: seq<nat>) returns (anchor: Option<Anchor>)
    requires |counts| == BYTE_VALUE_COUNT
    ensures anchor.Some? <==> Scannable(p)
    ensures anchor.Some? ==>
              && Anchors(anchor.value, p.bytes)
              && forall k :: 0 <= k < |p.bytes| && p.bytes[k].exact ==>
                   && counts[anchor.value.value] <= counts[p.bytes[k].value]
                   && (k < anchor.value.index ==> counts[anchor.value.value] < counts[p.bytes[k].value])
  {
    if p.name == "" || p.bytes == [] {
      return None;
    }
    anchor := None;
    for index := 0 to |p.bytes|
      invariant anchor.None? ==> forall k :: 0 <= k < index ==> !p.bytes[k].exact
      invariant anchor.Some? ==>
                  && anchor.value.index < index && Anchors(anchor.value, p.bytes)
                  && forall k :: 0 <= k < index && p.bytes[k].exact ==>
                       && counts[anchor.value.value] <= counts[p.bytes[k].value]
                       && (k < anchor.value.index ==> counts[anchor.value.value] < counts[p.bytes[k].value])
    {
      if !p.bytes[index].exact {
        continue;
      }
      var value := p.bytes[index].value;
      if anchor.Some? && counts[value] >= counts[anchor.value.value] {
        continue;
      }
      anchor := Some(Anchor(index, value));
    }
  }

  /** Tests one pattern at one bounded offset. */
  method MatchesAt(bytes: seq<byte>, offset: nat, pattern: seq<PatternByte>) returns (matched: bool)
    requires offset <= |bytes|
    ensures matched == MatchAt(bytes, pattern, offset)
  {
    if |pattern| > |bytes| - offset {
      return false;
    }
    for index := 0 to |pattern|
      invariant forall k :: 0 <= k < index && pattern[k].exact ==> bytes[offset + k] == pattern[k].value
    {
      if pattern[index].exact && bytes[offset + index] != pattern[index].value {
        return false;
      }
    }
    return true;
  }

  /** The first position of a byte value within a window. */
  method FindByte(bytes: seq<byte>, value: byte, first: nat, count: nat) returns (hit: Option<nat>)
    requires first + count <= |bytes|
    ensures hit.None? ==> forall k :: first <= k < first + count ==> bytes[k] != value
    ensures hit.Some? ==>
              && first <= hit.value < first + count && bytes[hit.value] == value
              && forall k :: first <= k < hit.value ==> bytes[k] != value
  {
    for k := first to first + count
      invariant forall j :: first <= j < k ==> bytes[j] != value
    {
      if bytes[k] == value {
        return Some(k);
      }
    }
    return None;
  }

  /** The next offset worth testing, if any: no match starts at an offset it passes over. */
  ghost predicate Upcoming(bytes: seq<byte>, pattern: seq<PatternByte>, from: nat, candidate: Option<nat>) {
    match candidate
    case None => forall o: nat :: o >= from ==> !MatchAt(bytes, pattern, o)
    case Some(at) =>
      from <= at && at + |pattern| <= |bytes| && forall o: nat :: from <= o < at ==> !MatchAt(bytes, pattern, o)
  }

  /** The next offset where the anchor lines up. */
  method NextCandidate(bytes: seq<byte>, pattern: seq<PatternByte>, anchor: Anchor, from: nat)
    returns (candidate: Option<nat>)
    requires Anchors(anchor, pattern)
    ensures Upcoming(bytes, pattern, from, candidate)
  {
    if |pattern| > |bytes| {
      return None;
    }
    var lastOffset := |bytes| - |pattern|;
    if from > lastOffset {
      return None;
    }
    var first, last := from + anchor.index, lastOffset + anchor.index;
    var hit := FindByte(bytes, anchor.value, first, last - first + 1);
    forall o: nat | from <= o && MatchAt(bytes, pattern, o)
      ensures hit.Some? && hit.value - anchor.index <= o
    {
      assert bytes[o + anchor.index] == anchor.value;
    }
    if hit.None? {
      return None;
    }
    return Some(hit.value - anchor.index);
  }

  // ---- resolving ---------------------------------------------------------------------------

  predicate InImage(image: seq<ImageRange>, hits: seq<Hit>) {
    forall k :: 0 <= k < |hits| ==> hits[k].range < |image|
  }

  /** What a list of hits says about one signature. */
  function Verdict(image: seq<ImageRange>, hits: seq<Hit>): Match
    requires InImage(image, hits)
  {
    if hits == [] then Missing
    else if |hits| == 1 then Unique(Address(image, hits[0]))
    else Ambiguous
  }

  lemma HitsInImage(image: seq<ImageRange>, pattern: seq<PatternByte>)
    requires pattern != []
    ensures InImage(image, Hits(image, pattern, 0))
  {
    HitsExact(image, pattern, 0);
    forall k | 0 <= k < |Hits(image, pattern, 0)|
      ensures Hits(image, pattern, 0)[k].range < |image|
    {
      assert Hits(image, pattern, 0)[k] in Hits(image, pattern, 0);
    }
  }

  /** The naive verdict on one pattern. */
  function Resolved(image: seq<ImageRange>, p: Pattern): Match {
    if !Scannable(p) then Invalid
    else
      HitsInImage(image, p.bytes);
      Verdict(image, Hits(image, p.bytes, 0))
  }

  /** The verdict is invalid exactly on a signature without a name or without an exact byte. */
  lemma InvalidMeans(image: seq<ImageRange>, p: Pattern)
    ensures Resolved(image, p) == Invalid <==> |p.name| == 0 || forall k :: 0 <= k < |p.bytes| ==> !p.bytes[k].exact
  {
    hide Hits;
  }

  /** A verdict decides how many (range, offset) pairs match, and where the only one is. */
  lemma ResolvedMeans(image: seq<ImageRange>, p: Pattern)
    requires Scannable(p)
    ensures Resolved(image, p) == Missing <==> forall h :: !IsHit(image, p.bytes, h)
    ensures Resolved(image, p).Unique? <==> exists h :: OnlyHit(image, p.bytes, h)
    ensures Resolved(image, p) == Ambiguous <==>
            exists g, h :: IsHit(image, p.bytes, g) && IsHit(image, p.bytes, h) && g != h
    ensures forall h :: OnlyHit(image, p.bytes, h) ==> Resolved(image, p) == Unique(Address(image, h))
  {
    HitsExact(image, p.bytes, 0);
    HitsInImage(image, p.bytes);
    var hits := Hits(image, p.bytes, 0);
    assert forall h :: h in hits <==> IsHit(image, p.bytes, h);
    hide Hits, IsHit, Scannable;
    if |hits| == 1 {
      assert hits[0] in hits;
      assert OnlyHit(image, p.bytes, hits[0]);
    } else if |hits| >= 2 {
      assert hits[0] in hits && hits[1] in hits && Before(hits[0], hits[1]);
    }
  }

  /** The one place a pattern matches. */
  ghost predicate OnlyHit(image: seq<ImageRange>, pattern: seq<PatternByte>, h: Hit) {
    h.range < |image| && IsHit(image, pattern, h) && forall g :: IsHit(image, pattern, g) ==> g == h
  }

  lemma NoHitsPast(bytes: seq<byte>, pattern: seq<PatternByte>, range: nat, from: nat)
    requires from >= |bytes|
    ensures RangeHits(bytes, pattern, range, from) == []
  {}

  /** The hits from one offset on are the hits from the next candidate on. */
  lemma SkipUpcoming(bytes: seq<byte>, pattern: seq<PatternByte>, range: nat, from: nat, candidate: Option<nat>)
    requires Upcoming(bytes, pattern, from, candidate)
    ensures candidate.None? ==> RangeHits(bytes, pattern, range, from) == []
    ensures candidate.Some? ==>
              && from <= candidate.value && candidate.value + |pattern| <= |bytes|
              && RangeHits(bytes, pattern, range, from) == RangeHits(bytes, pattern, range, candidate.value)
  {
    hide MatchAt, RangeHits;
    if candidate.None? {
      SkipTo(bytes, pattern, range, from, from + |bytes|);
      NoHitsPast(bytes, pattern, range, from + |bytes|);
    } else {
      SkipTo(bytes, pattern, range, from, candidate.value);
    }
  }

  lemma UpcomingFits(bytes: seq<byte>, pattern: seq<PatternByte>, from: nat, at: nat)
    requires Upcoming(bytes, pattern, from, Some(at))
    ensures from <= at <= |bytes|
  {}

  /** What was taken so far, and the hits from one offset on, are all the hits of a range. */
  ghost predicate Ahead(bytes: seq<byte>, pattern: seq<PatternByte>, range: nat, from: nat, taken: seq<Hit>) {
    taken + RangeHits(bytes, pattern, range, from) == RangeHits(bytes, pattern, range, 0)
  }

  lemma AheadStart(bytes: seq<byte>, pattern: seq<PatternByte>, range: nat)
    ensures Ahead(bytes, pattern, range, 0, [])
  {}

  lemma AheadStep(bytes: seq<byte>, pattern: seq<PatternByte>, range: nat, from: nat, taken: seq<Hit>, at: nat, matched: bool)
    requires pattern != [] && Ahead(bytes, pattern, range, from, taken)
    requires Upcoming(bytes, pattern, from, Some(at)) && matched == MatchAt(bytes, pattern, at)
    ensures from <= at < |bytes|
    ensures Ahead(bytes, pattern, range, at + 1, if matched then taken + [Hit(range, at)] else taken)
    ensures var all := RangeHits(bytes, pattern, range, 0);
            matched ==> |taken| < |all| && all[|taken|] == Hit(range, at)
  {
    SkipUpcoming(bytes, pattern, range, from, Some(at));
    NextHit(bytes, pattern, range, at);
    hide MatchAt, RangeHits, Upcoming;
    var all, rest := RangeHits(bytes, pattern, range, 0), RangeHits(bytes, pattern, range, at + 1);
    if matched {
      assert taken + ([Hit(range, at)] + rest) == taken + [Hit(range, at)] + rest;
      assert all[|taken|] == Hit(range, at);
    }
  }

  lemma AheadEnd(bytes: seq<byte>, pattern: seq<PatternByte>, range: nat, from: nat, taken: seq<Hit>)
    requires Ahead(bytes, pattern, range, from, taken)
    ensures |taken| <= |RangeHits(bytes, pattern, range, 0)|
    ensures Upcoming(bytes, pattern, from, None) ==> taken == RangeHits(bytes, pattern, range, 0)
  {
    if Upcoming(bytes, pattern, from, None) {
      SkipUpcoming(bytes, pattern, range, from, None);
    }
  }

  /** Some hits of a range, and all of them when it was scanned whole. */
  ghost predicate Gathered(bytes: seq<byte>, pattern: seq<PatternByte>, range: nat, taken: seq<Hit>, whole: bool) {
    |taken| <= |RangeHits(bytes, pattern, range, 0)| && (whole ==> taken == RangeHits(bytes, pattern, range, 0))
  }

  lemma AheadGathered(bytes: seq<byte>, pattern: seq<PatternByte>, range: nat, from: nat, taken: seq<Hit>, whole: bool)
    requires Ahead(bytes, pattern, range, from, taken) && (whole ==> Upcoming(bytes, pattern, from, None))
    ensures Gathered(bytes, pattern, range, taken, whole)
  {
    AheadEnd(bytes, pattern, range, from, taken);
  }

  /** A verdict on the hits of the earlier ranges and those taken from this one. */
  ghost predicate Told(image: seq<ImageRange>, done: seq<Hit>, taken: seq<Hit>, match_: Match) {
    InImage(image, done + taken) && match_ == Verdict(image, done + taken)
  }

  lemma ToldNext(image: seq<ImageRange>, done: seq<Hit>, taken: seq<Hit>, match_: Match, h: Hit)
    requires Told(image, done, taken, match_) && match_ != Ambiguous && h.range < |image|
    ensures Told(image, done, taken + [h], if match_ == Missing then Unique(Address(image, h)) else Ambiguous)
  {
    assert done + (taken + [h]) == done + taken + [h];
  }

  lemma ToldNone(image: seq<ImageRange>, done: seq<Hit>, match_: Match)
    requires InImage(image, done) && match_ == Verdict(image, done)
    ensures Told(image, done, [], match_)
  {
    assert done + [] == done;
  }

  /** One range's share of a resolution. */
  method ResolveRange(image: seq<ImageRange>, pattern: seq<PatternByte>, anchor: Anchor, range: nat,
                      before: Match, ghost done: seq<Hit>) returns (match_: Match, ghost taken: seq<Hit>)
    requires range < |image| && Anchors(anchor, pattern)
    requires InImage(image, done) && before == Verdict(image, done) && before != Ambiguous
    ensures Told(image, done, taken, match_)
    ensures Gathered(image[range].bytes, pattern, range, taken, match_ != Ambiguous)
  {
    hide MatchAt, RangeHits, Anchors, Upcoming, Ahead, Told, Verdict, InImage, Gathered;
    var bytes := image[range].bytes;
    AnchoredSome(anchor, pattern);
    ToldNone(image, done, before);
    AheadStart(bytes, pattern, range);
    match_, taken := before, [];
    var offset: nat := 0;
    while match_ != Ambiguous
      invariant offset <= |bytes|
      invariant Told(image, done, taken, match_) && Ahead(bytes, pattern, range, offset, taken)
      decreases |bytes| - offset
    {
      var candidate := NextCandidate(bytes, pattern, anchor, offset);
      if candidate.None? {
        AheadGathered(bytes, pattern, range, offset, taken, true);
        return;
      }
      match_, taken := ResolveAt(image, pattern, range, offset, candidate.value, match_, done, taken);
      offset := candidate.value + 1;
    }
    AheadGathered(bytes, pattern, range, offset, taken, false);
  }

  /** Tests one candidate: the first match is the unique one so far, the second makes two. */
  method ResolveAt(image: seq<ImageRange>, pattern: seq<PatternByte>, range: nat, ghost from: nat, at: nat, before: Match,
                   ghost done: seq<Hit>, ghost taken: seq<Hit>) returns (match_: Match, ghost grown: seq<Hit>)
    requires range < |image| && pattern != [] && before != Ambiguous && Told(image, done, taken, before)
    requires Ahead(image[range].bytes, pattern, range, from, taken)
    requires Upcoming(image[range].bytes, pattern, from, Some(at))
    ensures from <= at < |image[range].bytes| && Told(image, done, grown, match_)
    ensures Ahead(image[range].bytes, pattern, range, at + 1, grown)
  {
    hide MatchAt, RangeHits, Upcoming, Ahead, Told, Verdict, InImage;
    match_, grown := before, taken;
    UpcomingFits(image[range].bytes, pattern, from, at);
    var matched := MatchesAt(image[range].bytes, at, pattern);
    AheadStep(image[range].bytes, pattern, range, from, taken, at, matched);
    if matched {
      ToldNext(image, done, taken, match_, Hit(range, at));
      match_ := if match_ == Missing then Unique(image[range].address + at) else Ambiguous;
      grown := taken + [Hit(range, at)];
    }
  }

  /** The hits of the earlier ranges, and those from one range on, are all the hits of an image. */
  ghost predicate Sofar(image: seq<ImageRange>, pattern: seq<PatternByte>, range: nat, done: seq<Hit>) {
    range <= |image| && done + Hits(image, pattern, range) == Hits(image, pattern, 0)
  }

  lemma SofarNext(image: seq<ImageRange>, pattern: seq<PatternByte>, range: nat, done: seq<Hit>, taken: seq<Hit>, whole: bool)
    requires Sofar(image, pattern, range, done) && range < |image|
    requires Gathered(image[range].bytes, pattern, range, taken, whole)
    ensures |done + taken| <= |Hits(image, pattern, 0)|
    ensures whole ==> Sofar(image, pattern, range + 1, done + taken)
  {
    var here, rest := RangeHits(image[range].bytes, pattern, range, 0), Hits(image, pattern, range + 1);
    assert Hits(image, pattern, range) == here + rest;
    assert done + (here + rest) == done + here + rest;
  }

  /** A verdict told on all hits, or an ambiguous one on some of them, is the naive verdict. */
  lemma ToldResolves(image: seq<ImageRange>, p: Pattern, done: seq<Hit>, taken: seq<Hit>, match_: Match)
    requires Scannable(p) && Told(image, done, taken, match_) && |done + taken| <= |Hits(image, p.bytes, 0)|
    requires match_ == Ambiguous || done + taken == Hits(image, p.bytes, 0)
    ensures match_ == Resolved(image, p)
  {}

  lemma ToldOn(image: seq<ImageRange>, done: seq<Hit>, taken: seq<Hit>, match_: Match)
    requires Told(image, done, taken, match_)
    ensures InImage(image, done + taken) && match_ == Verdict(image, done + taken)
    ensures Told(image, done + taken, [], match_)
  {
    ToldNone(image, done + taken, match_);
  }

  lemma NothingSofar(image: seq<ImageRange>, pattern: seq<PatternByte>)
    ensures Sofar(image, pattern, 0, []) && Told(image, [], [], Missing)
    ensures InImage(image, []) && Verdict(image, []) == Missing
  {}

  lemma SofarEnd(image: seq<ImageRange>, pattern: seq<PatternByte>, done: seq<Hit>)
    requires Sofar(image, pattern, |image|, done)
    ensures done + [] == Hits(image, pattern, 0)
  {}

  /** Resolves one pattern with any anchor that is one of its exact bytes. */
  method ResolveOne(image: seq<ImageRange>, p: Pattern, anchor: Anchor) returns (match_: Match)
    requires Scannable(p) && Anchors(anchor, p.bytes)
    ensures match_ == Resolved(image, p)
  {
    NothingSofar(image, p.bytes);
    hide Hits, RangeHits, Anchors, Sofar, Told, Verdict, InImage, Resolved, Scannable, Gathered;
    match_ := Missing;
    ghost var hits: seq<Hit> := [];
    for range := 0 to |image|
      invariant match_ != Ambiguous && Sofar(image, p.bytes, range, hits)
      invariant InImage(image, hits) && match_ == Verdict(image, hits) && Told(image, hits, [], match_)
    {
      ghost var taken;
      match_, taken := ResolveRange(image, p.bytes, anchor, range, match_, hits);
      SofarNext(image, p.bytes, range, hits, taken, match_ != Ambiguous);
      if match_ == Ambiguous {
        ToldResolves(image, p, hits, taken, match_);
        return;
      }
      ToldOn(image, hits, taken, match_);
      hits := hits + taken;
    }
    SofarEnd(image, p.bytes, hits);
    ToldResolves(image, p, hits, [], match_);
  }

  /** Resolves every pattern. The verdicts are the naive ones, whatever the cached histogram says. */
  method ResolveAll(cache: FrequencyCache, image: seq<ImageRange>, patterns: seq<Pattern>, matches: array<Match>)
    returns (ok: bool)
    requires cache.Valid()
    modifies cache, matches
    ensures cache.Valid() && ok == (|patterns| == matches.Length)
    ensures ok ==> forall k :: 0 <= k < |patterns| ==> matches[k] == Resolved(image, patterns[k])
    ensures !ok ==> matches[..] == old(matches[..])
  {
    if |patterns| != matches.Length {
      return false;
    }
    var counts := cache.ByteCounts(image);
    for index := 0 to |patterns|
      invariant cache.Valid() && forall k :: 0 <= k < index ==> matches[k] == Resolved(image, patterns[k])
    {
      var anchor := AnchorOf(patterns[index], counts);
      if anchor.None? {
        matches[index] := Invalid;
        continue;
      }
      var resolved := ResolveOne(image, patterns[index], anchor.value);
      matches[index] := resolved;
    }
    return true;
  }

  // ---- collecting --------------------------------------------------------------------------

  function Addresses(image: seq<ImageRange>, hits: seq<Hit>): (a: seq<nat>)
    requires InImage(image, hits)
    ensures |a| == |hits| && forall k :: 0 <= k < |hits| ==> a[k] == Address(image, hits[k])
  {
    seq(|hits|, k requires 0 <= k < |hits| => Address(image, hits[k]))
  }

  /** The address of every match, in scan order. */
  function NaiveMatches(image: seq<ImageRange>, p: Pattern): seq<nat> {
    if !Scannable(p) then []
    else
      HitsInImage(image, p.bytes);
      Addresses(image, Hits(image, p.bytes, 0))
  }

  lemma NextHit(bytes: seq<byte>, pattern: seq<PatternByte>, range: nat, from: nat)
    requires pattern != [] && from + |pattern| <= |bytes|
    ensures var rest := RangeHits(bytes, pattern, range, from + 1);
            RangeHits(bytes, pattern, range, from) == if MatchAt(bytes, pattern, from) then [Hit(range, from)] + rest else rest
  {
    assert [] + RangeHits(bytes, pattern, range, from + 1) == RangeHits(bytes, pattern, range, from + 1);
  }

  /** The places from before to count hold the addresses of one range's first hits. */
  ghost predicate Stored(output: seq<nat>, before: nat, count: nat, address: nat, hits: seq<Hit>) {
    && before <= count <= |output| && count - before <= |hits|
    && forall k :: before <= k < count ==> output[k] == address + hits[k - before].offset
  }

  lemma StoredNext(output: seq<nat>, after: seq<nat>, before: nat, count: nat, address: nat, hits: seq<Hit>)
    requires Stored(output, before, count, address, hits) && count < |output| && count - before < |hits|
    requires after == output[count := address + hits[count - before].offset]
    ensures Stored(after, before, count + 1, address, hits)
  {}

  /** Only the places from before to count may have changed. */
  ghost predicate Kept(was: seq<nat>, output: seq<nat>, before: nat, count: nat) {
    |output| == |was| && before <= count <= |was| && output[..before] == was[..before] && output[count..] == was[count..]
  }

  lemma KeptNext(was: seq<nat>, output: seq<nat>, before: nat, count: nat, value: nat)
    requires Kept(was, output, before, count) && count < |output|
    ensures Kept(was, output[count := value], before, count + 1)
  {
    assert was[count + 1..] == was[count..][1..];
    assert output[count := value][count + 1..] == output[count..][1..];
  }

  lemma KeptAll(was: seq<nat>, before: nat)
    requires before <= |was|
    ensures Kept(was, was, before, before)
  {}

  lemma NothingStored(output: seq<nat>, before: nat, address: nat, hits: seq<Hit>)
    requires before <= |output|
    ensures Stored(output, before, before, address, hits)
  {}

  /** Stores one address in the next place. */
  method Store(output: array<nat>, ghost before: nat, count: nat, found: nat, ghost was: seq<nat>, ghost address: nat,
               ghost hits: seq<Hit>)
    requires Stored(output[..], before, count, address, hits) && Kept(was, output[..], before, count)
    requires count < output.Length && count - before < |hits| && found == address + hits[count - before].offset
    modifies output
    ensures Stored(output[..], before, count + 1, address, hits) && Kept(was, output[..], before, count + 1)
  {
    hide Stored, Kept;
    ghost var stored := output[..];
    output[count] := found;
    assert output[..] == stored[count := found];
    StoredNext(stored, output[..], before, count, address, hits);
    KeptNext(was, stored, before, count, found);
  }

  /** One range's share of a collection. */
  method CollectRange(image: seq<ImageRange>, pattern: seq<PatternByte>, anchor: Anchor, range: nat,
                      output: array<nat>, before: nat) returns (count: nat)
    requires range < |image| && Anchors(anchor, pattern) && before < output.Length
    modifies output
    ensures before <= count <= output.Length && Kept(old(output[..]), output[..], before, count)
    ensures var here := RangeHits(image[range].bytes, pattern, range, 0);
            && Stored(output[..], before, count, image[range].address, here)
            && (count < output.Length ==> count - before == |here|)
  {
    hide MatchAt, RangeHits, Anchors, Stored, Kept, Upcoming, Ahead;
    var bytes := image[range].bytes;
    ghost var all := RangeHits(bytes, pattern, range, 0);
    AnchoredSome(anchor, pattern);
    NothingStored(output[..], before, image[range].address, all);
    KeptAll(output[..], before);
    AheadStart(bytes, pattern, range);
    count := before;
    var candidate := NextCandidate(bytes, pattern, anchor, 0);
    ghost var from, taken: seq<Hit> := 0, [];
    while candidate.Some?
      invariant before <= count < output.Length && count - before == |taken| && 0 <= from <= |bytes|
      invariant Kept(old(output[..]), output[..], before, count)
      invariant Stored(output[..], before, count, image[range].address, all)
      invariant Ahead(bytes, pattern, range, from, taken) && Upcoming(bytes, pattern, from, candidate)
      decreases |bytes| - from, candidate.Some?
    {
      count, taken := CollectAt(image[range], pattern, range, candidate.value, output, before, count, from, taken, old(output[..]));
      from := candidate.value + 1;
      if count == output.Length {
        AheadEnd(bytes, pattern, range, from, taken);
        return;
      }
      candidate := NextCandidate(bytes, pattern, anchor, candidate.value + 1);
    }
    AheadEnd(bytes, pattern, range, from, taken);
  }

  /** Tests one candidate, and stores its address when it matches. */
  method CollectAt(image: ImageRange, pattern: seq<PatternByte>, ghost range: nat, at: nat, output: array<nat>,
                   ghost before: nat, count: nat, ghost from: nat, ghost taken: seq<Hit>, ghost was: seq<nat>)
    returns (next: nat, ghost grown: seq<Hit>)
    requires pattern != [] && before <= count < output.Length && count - before == |taken|
    requires Kept(was, output[..], before, count)
    requires Stored(output[..], before, count, image.address, RangeHits(image.bytes, pattern, range, 0))
    requires Ahead(image.bytes, pattern, range, from, taken) && Upcoming(image.bytes, pattern, from, Some(at))
    modifies output
    ensures count <= next <= output.Length && next - before == |grown| && from <= at < |image.bytes|
    ensures Kept(was, output[..], before, next)
    ensures Stored(output[..], before, next, image.address, RangeHits(image.bytes, pattern, range, 0))
    ensures Ahead(image.bytes, pattern, range, at + 1, grown)
  {
    hide MatchAt, RangeHits, Stored, Kept, Upcoming, Ahead;
    next, grown := count, taken;
    UpcomingFits(image.bytes, pattern, from, at);
    var matched := MatchesAt(image.bytes, at, pattern);
    AheadStep(image.bytes, pattern, range, from, taken, at, matched);
    if matched {
      Store(output, before, count, image.address + at, was, image.address, RangeHits(image.bytes, pattern, range, 0));
      next := count + 1;
      grown := taken + [Hit(range, at)];
    }
  }

  /** Collects the first matches in scan order, as many as the output holds. */
  method CollectMatches(cache: FrequencyCache, image: seq<ImageRange>, p: Pattern, output: array<nat>)
    returns (count: nat)
    requires cache.Valid()
    modifies cache, output
    ensures cache.Valid() && count <= output.Length && output[count..] == old(output[count..])
    ensures count == if |NaiveMatches(image, p)| < output.Length then |NaiveMatches(image, p)| else output.Length
    ensures output[..count] == NaiveMatches(image, p)[..count]
  {
    var counts := cache.ByteCounts(image);
    var anchor := AnchorOf(p, counts);
    if anchor.None? || output.Length == 0 {
      return 0;
    }
    HitsInImage(image, p.bytes);
    ghost var hits := Hits(image, p.bytes, 0);
    count := 0;
    for range := 0 to |image|
      invariant cache.Valid() && count < output.Length && output[count..] == old(output[count..])
      invariant count <= |hits| && hits[count..] == Hits(image, p.bytes, range)
      invariant forall k :: 0 <= k < count ==> output[k] == Address(image, hits[k])
    {
      ghost var here, rest, before, kept := RangeHits(image[range].bytes, p.bytes, range, 0), Hits(image, p.bytes, range + 1), count, output[..count];
      RangeHitsExact(image[range].bytes, p.bytes, range, 0);
      ghost var was := output[..];
      count := CollectRange(image, p.bytes, anchor.value, range, output, count);
      assert output[..before] == kept && output[count..] == was[count..];
      assert hits[before..] == here + rest;
      forall k | 0 <= k < count
        ensures k < |hits| && output[k] == Address(image, hits[k])
      {
        if k < before {
          assert output[k] == output[..before][k] == kept[k];
        } else {
          assert hits[k] == hits[before..][k - before] == here[k - before];
          assert here[k - before] in here;
        }
      }
      if count == output.Length {
        return;
      }
      assert hits[count..] == hits[before..][|here|..] == rest;
    }
  }
}
