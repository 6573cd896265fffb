/** The asset-reference scanner of `link_assets_to_shard`: every occurrence
    of `asset://` in a shard's content followed by at least 36 more bytes
    names the asset whose id is those 36 bytes. Nothing checks that the 36
    bytes look like a UUID. */
module AssetRefs {
  import opened Wrappers
  import opened StdText

  /** The key the scanner looks for. */
  const AssetScheme: string := "asset://"

  /** Length of an asset id (a hyphenated UUID). */
  const IdLen: nat := 36

  /** An occurrence of the key at byte `p` with a whole id after it. */
  predicate RefAt(content: string, p: int) {
    OccursAt(content, AssetScheme, p) && p + |AssetScheme| + IdLen <= |content|
  }

  /** The id captured after the key at byte `p`. */
  function IdAt(content: string, p: int): string
    requires RefAt(content, p)
  {
    content[p + |AssetScheme|..p + |AssetScheme| + IdLen]
  }

  /** The ids captured by occurrences that start before byte `n`. */
  function RefsBefore(content: string, n: int): set<string> {
    set p | 0 <= p < n && RefAt(content, p) :: IdAt(content, p)
  }

  /** Every asset id the content refers to: one per occurrence of the key,
      with duplicates collapsed. */
  function ReferencedIds(content: string): (ids: set<string>)
    ensures forall id :: id in ids ==> |id| == IdLen
  {
    RefsBefore(content, |content|)
  }

  /** Two occurrences of `asset://` never overlap: the key has no proper
      prefix that is also a suffix. So resuming the search right after a
      match skips no occurrence. */
  lemma SchemeNoSelfOverlap(content: string, p: int, q: int)
    requires OccursAt(content, AssetScheme, p) && OccursAt(content, AssetScheme, q)
    requires p < q
    ensures q >= p + |AssetScheme|
  {
    assert content[q] == 'a' by {
      assert content[q..q + |AssetScheme|][0] == content[q];
    }
    forall k | p < k < p + |AssetScheme|
      ensures content[k] != 'a'
    {
      assert content[p..p + |AssetScheme|][k - p] == content[k];
    }
  }

  /** Positions without an occurrence add no id. */
  lemma RefsBeforeSkip(content: string, n: int, m: int)
    requires n <= m
    requires forall p :: n <= p < m ==> !RefAt(content, p)
    ensures RefsBefore(content, m) == RefsBefore(content, n)
  {
  }

  /** One more position adds at most the id captured there. */
  lemma RefsBeforeStep(content: string, n: int)
    ensures RefsBefore(content, n + 1)
         == RefsBefore(content, n) + (if RefAt(content, n) then {IdAt(content, n)} else {})
  {
  }

  /** A search from `startIdx` that succeeds finds the first occurrence at
      or after `startIdx`. */
  lemma FoundFrom(content: string, startIdx: nat, idx: nat)
    requires startIdx <= |content|
    requires Find(content[startIdx..], AssetScheme) == Some(idx)
    ensures OccursAt(content, AssetScheme, startIdx + idx)
    ensures forall p :: startIdx <= p < startIdx + idx ==> !OccursAt(content, AssetScheme, p)
  {
    FindFirstOccurrence(content[startIdx..], AssetScheme);
    OccursInSuffix(content, AssetScheme, startIdx, idx);
    forall p | startIdx <= p < startIdx + idx
      ensures !OccursAt(content, AssetScheme, p)
    {
      OccursInSuffix(content, AssetScheme, startIdx, p - startIdx);
    }
  }

  /** A search from `startIdx` that fails leaves no occurrence at or after
      `startIdx`. */
  lemma NotFoundFrom(content: string, startIdx: nat)
    requires startIdx <= |content|
    requires Find(content[startIdx..], AssetScheme) == None
    ensures forall p :: startIdx <= p ==> !OccursAt(content, AssetScheme, p)
  {
    FindFirstOccurrence(content[startIdx..], AssetScheme);
    forall p | startIdx <= p
      ensures !OccursAt(content, AssetScheme, p)
    {
      OccursInSuffix(content, AssetScheme, startIdx, p - startIdx);
    }
  }

  /** One round of the scan: a match `idx` bytes after `startIdx` adds the
      id captured after it, if 36 bytes remain, and nothing else before the
      next search start. */
  lemma ScanStep(content: string, startIdx: nat, idx: nat, before: set<string>, after: set<string>)
    requires startIdx <= |content|
    requires Find(content[startIdx..], AssetScheme) == Some(idx)
    requires before == RefsBefore(content, startIdx)
    requires var absIdx := startIdx + idx + |AssetScheme|;
      after == if absIdx + IdLen <= |content| then before + {content[absIdx..absIdx + IdLen]} else before
    ensures startIdx < startIdx + idx + |AssetScheme| <= |content|
    ensures after == RefsBefore(content, startIdx + idx + |AssetScheme|)
  {
    var matchIdx := startIdx + idx;
    var absIdx := matchIdx + |AssetScheme|;
    FoundFrom(content, startIdx, idx);
    forall p | matchIdx < p < absIdx
      ensures !RefAt(content, p)
    {
      if OccursAt(content, AssetScheme, p) {
        SchemeNoSelfOverlap(content, matchIdx, p);
      }
    }
    RefsBeforeSkip(content, startIdx, matchIdx);
    RefsBeforeStep(content, matchIdx);
    RefsBeforeSkip(content, matchIdx + 1, absIdx);
  }

  /** When the search from `startIdx` fails, no id lies at or after it. */
  lemma ScanEnd(content: string, startIdx: nat)
    requires startIdx <= |content|
    requires Find(content[startIdx..], AssetScheme) == None
    ensures RefsBefore(content, startIdx) == ReferencedIds(content)
  {
    NotFoundFrom(content, startIdx);
    RefsBeforeSkip(content, startIdx, |content|);
  }

  /** The scanning loop of `link_assets_to_shard`: search for the key from
      `start_idx`, take the 36 bytes after a match when there are that
      many, resume right after the key. It collects exactly the ids of
      all occurrences, including an occurrence that lies inside an id
      captured earlier. */
  method ScanAssetIds(content: string) returns (assetIds: set<string>)
    ensures assetIds == ReferencedIds(content)
  {
    var startIdx: nat := 0;
    assetIds := {};
    var found := Find(content[startIdx..], AssetScheme);
    while found.Some?
      invariant startIdx <= |content|
      invariant found == Find(content[startIdx..], AssetScheme)
      invariant assetIds == RefsBefore(content, startIdx)
      decreases |content| - startIdx
    {
      var idx := found.value;
      var absIdx := startIdx + idx + |AssetScheme|;
      ghost var before := assetIds;
      if absIdx + IdLen <= |content| {
        assetIds := assetIds + {content[absIdx..absIdx + IdLen]};
      }
      ScanStep(content, startIdx, idx, before, assetIds);
      startIdx := absIdx;
      found := Find(content[startIdx..], AssetScheme);
    }
    ScanEnd(content, startIdx);
  }

  /** A reference is found whatever text surrounds it: plain text, image
      syntax or an HTML attribute all leave it in place. */
  lemma {:induction false} ReferencesSurviveContext(before: string, body: string, after: string)
    ensures ReferencedIds(body) <= ReferencedIds(before + body + after)
  {
    forall id | id in ReferencedIds(body)
      ensures id in ReferencedIds(before + body + after)
    {
      var p :| 0 <= p < |body| && RefAt(body, p) && IdAt(body, p) == id;
      ShiftedReference(before, body, after, p);
    }
  }

  /** A reference at byte `p` of `body` is the same reference at byte
      `|before| + p` of `before + body + after`. */
  lemma ShiftedReference(before: string, body: string, after: string, p: int)
    requires RefAt(body, p)
    ensures RefAt(before + body + after, |before| + p)
    ensures IdAt(before + body + after, |before| + p) == IdAt(body, p)
  {
    var whole := before + body + after;
    var q := |before| + p;
    assert whole[q..q + |AssetScheme|] == body[p..p + |AssetScheme|];
    assert whole[q + |AssetScheme|..q + |AssetScheme| + IdLen]
        == body[p + |AssetScheme|..p + |AssetScheme| + IdLen];
  }

  /** A key followed by fewer than 36 bytes contributes nothing. */
  lemma TruncatedReference(tail: string)
    requires |tail| < IdLen
    ensures ReferencedIds(AssetScheme + tail) == {}
  {
  }

  /** A key followed by exactly one id refers to that id alone, even when
      the id itself contains the key. */
  lemma {:induction false} SingleReference(id: string)
    requires |id| == IdLen
    ensures ReferencedIds(AssetScheme + id) == {id}
  {
    var c := AssetScheme + id;
    assert c[..|AssetScheme|] == AssetScheme;
    assert RefAt(c, 0) && IdAt(c, 0) == id;
    forall p | 0 < p < |c| ensures !RefAt(c, p) { }
    RefsBeforeStep(c, 0);
    RefsBeforeSkip(c, 1, |c|);
  }
}
