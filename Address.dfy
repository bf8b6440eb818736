/**
  The per-item address pipeline of the crawler (src/utils/crawler.ts:84-181): choosing the
  element that holds the short "basic" address, cleaning that text, cutting the lot-number
  ("지번") detail out of the expanded item text, and merging the two into one address.
  Everything here is a deterministic string function; the DOM reads that feed it are
  parameters.
 */
module Address {

  import opened Wrappers
  import opened Text

  /** The fourteen region names the source's two regular expressions alternate over. */
  predicate IsRegionToken(t: string) {
    || t == "서울" || t == "경기" || t == "인천" || t == "강원" || t == "충청" || t == "전라" || t == "경상"
    || t == "제주" || t == "부산" || t == "대구" || t == "광주" || t == "대전" || t == "울산" || t == "세종"
  }

  /** The label of the address-expansion control, stripped from the basic address. */
  const OpenDetailLabel: string := "상세주소 열기"

  /** The label in front of the lot-number address in the expanded panel. */
  const JibunLabel: string := "지번"

  /** The label of the copy control that follows each address in the expanded panel. */
  const CopyLabel: string := "복사"

  predicate RegionAt(s: string, i: nat) {
    i + 2 <= |s| && IsRegionToken(s[i..i + 2])
  }

  /** Where the region pattern (a region name, then `.*`) starts matching, from `from` on. */
  function FirstRegion(s: string, from: nat): (r: Option<nat>)
    decreases |s| - from
    ensures r.Some? ==> from <= r.value && RegionAt(s, r.value)
    ensures r.Some? ==> forall k :: from <= k < r.value ==> !RegionAt(s, k)
    ensures r.None? ==> forall k :: from <= k ==> !RegionAt(s, k)
  {
    if from + 2 > |s| then None
    else if RegionAt(s, from) then Some(from)
    else FirstRegion(s, from + 1)
  }

  /** Where the greedy `.*` that follows the region name stops: the first line terminator
      at or after `i`, or the end of the text. */
  function LineEnd(s: string, i: nat): (j: nat)
    requires i <= |s|
    decreases |s| - i
    ensures i <= j <= |s|
    ensures forall k :: i <= k < j ==> !IsLineTerminator(s[k])
    ensures j < |s| ==> IsLineTerminator(s[j])
  {
    if i == |s| || IsLineTerminator(s[i]) then i else LineEnd(s, i + 1)
  }

  /** The index of the first of the item's span/div texts that starts with a region name
      (the `^(서울|…)` test of the element scan), from `from` on. */
  function FindAddressContainer(texts: seq<string>, from: nat): (r: Option<nat>)
    decreases |texts| - from
    ensures r.Some? ==> from <= r.value < |texts| && RegionAt(texts[r.value], 0)
    ensures r.Some? ==> forall k :: from <= k < r.value ==> !RegionAt(texts[k], 0)
    ensures r.None? ==> forall k :: from <= k < |texts| ==> !RegionAt(texts[k], 0)
  {
    if from >= |texts| then None
    else if RegionAt(texts[from], 0) then Some(from)
    else FindAddressContainer(texts, from + 1)
  }

  /** The basic address read from the container's text content before expansion: from the
      first region name to the end of that line, or the whole text when no region name
      occurs, with the first "상세주소 열기" removed and whitespace trimmed. */
  function BasicAddress(raw: string): (r: string)
    ensures Trimmed(r)
  {
    var text := Trim(raw);
    match FirstRegion(text, 0)
    case Some(i) => Trim(RemoveFirst(text[i..LineEnd(text, i)], OpenDetailLabel))
    case None => Trim(RemoveFirst(text, OpenDetailLabel))
  }

  /** The basic address of an item: empty when none of its span/div texts starts with a
      region name. */
  function BasicAddressOfItem(texts: seq<string>): (r: string)
    ensures Trimmed(r)
    ensures (forall k :: 0 <= k < |texts| ==> !RegionAt(texts[k], 0)) ==> r == []
  {
    match FindAddressContainer(texts, 0)
    case None => []
    case Some(k) => BasicAddress(texts[k])
  }

  lemma RegionTokenIsWord(t: string)
    requires IsRegionToken(t)
    ensures |t| == 2 && !IsSpace(t[0]) && !IsSpace(t[1])
    ensures !IsLineTerminator(t[0]) && !IsLineTerminator(t[1])
    ensures t[0] != OpenDetailLabel[0]
  {
  }

  /** The container chosen by the element scan starts with a region name, and trimming keeps
      it there, so for such a container the region search always matches at index 0: the
      branch that falls back to the whole text (crawler.ts:130-131) is never taken. */
  lemma {:induction false} ContainerMatchesRegionAtStart(raw: string)
    requires RegionAt(raw, 0)
    ensures FirstRegion(Trim(raw), 0) == Some(0)
  {
    var token := raw[..2];
    RegionTokenIsWord(token);
    assert Trimmed(token);
    assert raw == token + raw[2..];
    TrimKeepsLeadingWord(token, raw[2..]);
    assert Trim(raw)[..2] == token;
    assert RegionAt(Trim(raw), 0);
  }

  /** When a region name occurs, the basic address is cut from the region's line. */
  lemma BasicAddressIsLine(raw: string, i: nat)
    requires FirstRegion(Trim(raw), 0) == Some(i)
    ensures var text := Trim(raw);
            BasicAddress(raw) == Trim(RemoveFirst(text[i..LineEnd(text, i)], OpenDetailLabel))
  {
  }

  /** When a region name occurs, the basic address holds no line break. */
  lemma BasicAddressOnOneLine(raw: string, i: nat)
    requires FirstRegion(Trim(raw), 0) == Some(i)
    ensures forall k :: 0 <= k < |BasicAddress(raw)| ==> !IsLineTerminator(BasicAddress(raw)[k])
  {
    var text := Trim(raw);
    var j := LineEnd(text, i);
    BasicAddressIsLine(raw, i);
    LineKeepsNoBreak(text[i..j], text, i, j);
  }

  /** When a region name occurs, the basic address starts with it, unless the expand label
      begins inside the name itself. */
  lemma BasicAddressStartsWithRegion(raw: string, i: nat)
    requires FirstRegion(Trim(raw), 0) == Some(i)
    requires !OccursAt(Trim(raw), OpenDetailLabel, i + 1)
    ensures StartsWith(BasicAddress(raw), Trim(raw)[i..i + 2])
  {
    BasicAddressIsLine(raw, i);
    RegionLineStartsWithToken(Trim(raw), i);
  }

  lemma RegionLineStartsWithToken(text: string, i: nat)
    requires RegionAt(text, i) && !OccursAt(text, OpenDetailLabel, i + 1)
    ensures StartsWith(Trim(RemoveFirst(text[i..LineEnd(text, i)], OpenDetailLabel)), text[i..i + 2])
  {
    var j := LineEnd(text, i);
    var token := text[i..i + 2];
    RegionTokenIsWord(token);
    assert !IsLineTerminator(text[i]) && !IsLineTerminator(text[i + 1]);
    assert i + 2 <= j;
    var line := text[i..j];
    assert line[..2] == token;
    OccursInSlice(text, i, j, OpenDetailLabel, 1);
    LabelAfterToken(line, token);
  }

  lemma LineKeepsNoBreak(line: string, text: string, i: nat, j: nat)
    requires i <= j <= |text| && line == text[i..j]
    requires forall k :: i <= k < j ==> !IsLineTerminator(text[k])
    ensures forall k :: 0 <= k < |Trim(RemoveFirst(line, OpenDetailLabel))| ==>
              !IsLineTerminator(Trim(RemoveFirst(line, OpenDetailLabel))[k])
  {
    var cut := RemoveFirst(line, OpenDetailLabel);
    forall k | 0 <= k < |cut| ensures !IsLineTerminator(cut[k]) {
      RemoveFirstKeepsChars(line, OpenDetailLabel, k);
    }
    TrimKeepsChars(cut);
  }

  lemma LabelAfterToken(line: string, token: string)
    requires IsRegionToken(token) && StartsWith(line, token)
    requires !OccursAt(line, OpenDetailLabel, 1)
    ensures StartsWith(Trim(RemoveFirst(line, OpenDetailLabel)), token)
  {
    RegionTokenIsWord(token);
    assert !OccursAt(line, OpenDetailLabel, 0) by {
      assert line[0] == token[0];
    }
    RemoveFirstKeepsPrefix(line, OpenDetailLabel, 2);
    var cut := RemoveFirst(line, OpenDetailLabel);
    assert cut == token + cut[2..];
    TrimKeepsLeadingWord(token, cut[2..]);
  }

  lemma TrimKeepsChars(s: string)
    requires forall k :: 0 <= k < |s| ==> !IsLineTerminator(s[k])
    ensures forall k :: 0 <= k < |Trim(s)| ==> !IsLineTerminator(Trim(s)[k])
  {
    var t := TrimStart(s);
    CutKeepsNoBreak(s, t, TrimEnd(t));
  }

  /** A prefix `r` of a suffix `t` of a string without line terminators has none either. */
  lemma CutKeepsNoBreak(s: string, t: string, r: string)
    requires |t| <= |s| && t == s[|s| - |t|..] && |r| <= |t| && r == t[..|r|]
    requires forall k :: 0 <= k < |s| ==> !IsLineTerminator(s[k])
    ensures forall k :: 0 <= k < |r| ==> !IsLineTerminator(r[k])
  {
    forall k | 0 <= k < |r|
      ensures !IsLineTerminator(r[k])
    {
      assert r[k] == t[k] == s[|s| - |t| + k];
    }
  }

  /** With no region name and no expand label, the basic address is the trimmed text. */
  lemma BasicAddressWithoutRegion(raw: string)
    requires FirstRegion(Trim(raw), 0).None?
    requires !Contains(Trim(raw), OpenDetailLabel)
    ensures BasicAddress(raw) == Trim(raw)
  {
  }

  // ---------------------------------------------------------------------------
  // The lot-number detail: /지번(.*?)(?=복사)/ on the text with newlines replaced.

  /** No line terminator in `s[i..q]`: the lazy `.*?` may span it. */
  predicate NoBreak(s: string, i: nat, q: nat)
    requires i <= q <= |s|
  {
    forall k :: i <= k < q ==> !IsLineTerminator(s[k])
  }

  /** The pattern can match with "지번" at `p` and the look-ahead "복사" at `q`. */
  predicate PairAt(s: string, p: nat, q: nat) {
    OccursAt(s, JibunLabel, p) && p + 2 <= q && OccursAt(s, CopyLabel, q) && NoBreak(s, p + 2, q)
  }

  /** Where the lazy group that starts at `i` stops: the nearest "복사" that is not behind a
      line terminator. */
  function NearestCopy(s: string, i: nat): (r: Option<nat>)
    requires i <= |s|
    decreases |s| - i
    ensures r.Some? ==> i <= r.value <= |s| && OccursAt(s, CopyLabel, r.value) && NoBreak(s, i, r.value)
    ensures r.Some? ==> forall k :: i <= k < r.value ==> !OccursAt(s, CopyLabel, k)
    ensures r.None? ==> forall q :: i <= q <= |s| && OccursAt(s, CopyLabel, q) ==> !NoBreak(s, i, q)
  {
    if OccursAt(s, CopyLabel, i) then Some(i)
    else if i == |s| || IsLineTerminator(s[i]) then None
    else NearestCopy(s, i + 1)
  }

  /** The leftmost match of the pattern from `p` on, as the bounds of its capture group. */
  function JibunMatch(s: string, p: nat): (r: Option<(nat, nat)>)
    decreases |s| - p
    ensures r.Some? ==> p + 2 <= r.value.0 <= r.value.1 <= |s| && PairAt(s, r.value.0 - 2, r.value.1)
    ensures r.Some? ==> forall k :: r.value.0 <= k < r.value.1 ==> !OccursAt(s, CopyLabel, k)
    ensures r.Some? ==> forall p', q :: p <= p' < r.value.0 - 2 ==> !PairAt(s, p', q)
    ensures r.None? ==> forall p', q :: p <= p' ==> !PairAt(s, p', q)
  {
    if p + 2 > |s| then None
    else if OccursAt(s, JibunLabel, p) && NearestCopy(s, p + 2).Some? then
      Some((p + 2, NearestCopy(s, p + 2).value))
    else JibunMatch(s, p + 1)
  }

  /** The lot-number detail read from the item's expanded text: the trimmed text between the
      first usable "지번" and the nearest "복사" after it, or empty when there is none. */
  function JibunDetail(text: string): (r: string)
    ensures Trimmed(r)
  {
    var s := ReplaceNewlines(text);
    match JibunMatch(s, 0)
    case None => []
    case Some((a, q)) => Trim(s[a..q])
  }

  /** The detail is taken from between a "지번" and the nearest "복사" after it, and is
      empty when no such pair exists. */
  lemma JibunDetailBetweenLabels(text: string)
    ensures var s := ReplaceNewlines(text);
            (forall p, q :: !PairAt(s, p, q)) ==> JibunDetail(text) == []
    ensures var s := ReplaceNewlines(text);
            JibunDetail(text) != [] ==>
              exists p: nat, q: nat :: PairAt(s, p, q) && JibunDetail(text) == Trim(s[p + 2..q])
                          && forall k :: p + 2 <= k < q ==> !OccursAt(s, CopyLabel, k)
  {
    var s := ReplaceNewlines(text);
    match JibunMatch(s, 0)
    case None =>
    case Some((a, q)) =>
      assert PairAt(s, a - 2, q);
  }

  /** Replacing the newlines is what lets the detail span lines: in text whose only line
      terminators are "\n", any "지번" followed later by "복사" yields a match. */
  lemma {:induction false} NewlinesDoNotBlockDetail(text: string, p: nat, q: nat)
    requires forall k :: 0 <= k < |text| ==> text[k] == '\n' || !IsLineTerminator(text[k])
    requires OccursAt(text, JibunLabel, p) && p + 2 <= q && OccursAt(text, CopyLabel, q)
    ensures JibunMatch(ReplaceNewlines(text), 0).Some?
  {
    var s := ReplaceNewlines(text);
    assert s[p..p + 2] == text[p..p + 2];
    assert s[q..q + 2] == text[q..q + 2];
    assert PairAt(s, p, q);
  }

  // ---------------------------------------------------------------------------
  // The merge (crawler.ts:161-181).

  /** The lot-number address built from the basic address and the detail. */
  function MergeJibun(basic: string, detail: string): (r: string)
    ensures basic == [] ==> r == detail
    ensures detail == [] ==> r == basic
    ensures Trimmed(basic) && Trimmed(detail) ==> Trimmed(r)
  {
    if basic != [] && detail != [] then
      var last := LastToken(basic);
      if StartsWith(detail, last) then Trim(basic + " " + Trim(detail[|last|..]))
      else if StartsWith(detail, basic) then detail
      else if Contains(detail, basic) then detail
      else Trim(basic + " " + detail)
    else if detail != [] then detail
    else basic
  }

  /** Overlap: when the detail repeats the basic address's last word, that word is dropped
      from the detail and the rest follows the basic address after exactly one space. */
  lemma MergeOverlap(basic: string, detail: string)
    requires basic != [] && detail != [] && Trimmed(basic)
    requires StartsWith(detail, LastToken(basic))
    ensures var rest := Trim(detail[|LastToken(basic)|..]);
            MergeJibun(basic, detail) == if rest == [] then basic else basic + " " + rest
  {
    TrimJoin(basic, Trim(detail[|LastToken(basic)|..]));
  }

  /** No overlap, but the detail already holds the basic address, as a prefix or anywhere:
      the detail alone is the address. */
  lemma MergeDetailHoldsBasic(basic: string, detail: string)
    requires basic != [] && detail != []
    requires !StartsWith(detail, LastToken(basic))
    requires StartsWith(detail, basic) || Contains(detail, basic)
    ensures MergeJibun(basic, detail) == detail
  {
  }

  /** No overlap and no containment: the two are joined by exactly one space. */
  lemma MergeJoinsWithSpace(basic: string, detail: string)
    requires basic != [] && detail != [] && Trimmed(basic) && Trimmed(detail)
    requires !StartsWith(detail, LastToken(basic))
    requires !Contains(detail, basic)
    ensures MergeJibun(basic, detail) == basic + " " + detail
  {
    if StartsWith(detail, basic) {
      StartsWithContains(detail, basic);
    }
    TrimJoin(basic, detail);
  }

  /** The merged address never loses the basic address. */
  lemma MergeKeepsBasic(basic: string, detail: string)
    requires basic != [] && Trimmed(basic)
    ensures Contains(MergeJibun(basic, detail), basic)
  {
    var r := MergeJibun(basic, detail);
    if detail == [] {
      StartsWithContains(basic, basic);
    } else if StartsWith(detail, LastToken(basic)) {
      JoinKeepsLeadingWord(basic, Trim(detail[|LastToken(basic)|..]));
      StartsWithContains(r, basic);
    } else if StartsWith(detail, basic) {
      StartsWithContains(r, basic);
    } else if !Contains(detail, basic) {
      JoinKeepsLeadingWord(basic, detail);
      StartsWithContains(r, basic);
    }
  }

  /** The case the source's comment describes. */
  lemma MergeSincheonExample(basic: string, detail: string)
    requires basic == "서울 송파구 신천동" && detail == "신천동 20-6"
    ensures MergeJibun(basic, detail) == "서울 송파구 신천동 20-6"
  {
    SincheonLastToken();
    SincheonRest();
    assert StartsWith(detail, "신천동");
    assert detail[3..] == " 20-6";
    MergeOverlap(basic, detail);
    SincheonJoin();
  }

  lemma SincheonLastToken()
    ensures LastToken("서울 송파구 신천동") == "신천동"
  {
    assert "서울 송파구 신천동"[..9] == "서울 송파구 신천";
    assert "서울 송파구 신천"[..8] == "서울 송파구 신";
    assert "서울 송파구 신"[..7] == "서울 송파구 ";
    assert LastToken("서울 송파구 ") == [];
  }

  lemma SincheonJoin()
    ensures "서울 송파구 신천동" + " " + "20-6" == "서울 송파구 신천동 20-6"
  {
  }

  lemma SincheonRest()
    ensures Trim(" 20-6") == "20-6"
  {
    SincheonRestStart();
    SincheonRestEnd();
  }

  lemma SincheonRestStart()
    ensures TrimStart(" 20-6") == "20-6"
  {
  }

  lemma SincheonRestEnd()
    ensures TrimEnd("20-6") == "20-6"
  {
  }

  /** The lot-number address of an item: the merge of its basic address and the detail read
      from its expanded text, or empty when reading the expanded text failed (the inner
      try/catch at crawler.ts:149-185 leaves the address at its initial ''). */
  function JibunAddress(blockTexts: seq<string>, expandedText: Option<string>): (r: string)
    ensures Trimmed(r)
    ensures expandedText.None? ==> r == []
  {
    match expandedText
    case None => []
    case Some(text) => MergeJibun(BasicAddressOfItem(blockTexts), JibunDetail(text))
  }

  /** Once the expanded text could be read, the item's address holds its basic address. */
  lemma JibunAddressKeepsBasic(blockTexts: seq<string>, text: string)
    requires BasicAddressOfItem(blockTexts) != []
    ensures Contains(JibunAddress(blockTexts, Some(text)), BasicAddressOfItem(blockTexts))
  {
    MergeKeepsBasic(BasicAddressOfItem(blockTexts), JibunDetail(text));
  }
}
