/**
 The field values of `If-Match` and `If-None-Match` as section 3 of RFC 7232 and the list rule of
 section 7 of RFC 7230 define them, written down independently of the scanner of `Etag`.  The
 lemmas say exactly which of these values the scanner reads, and which it takes for corrupt.
 */
module RfcTagList {
  import opened Prelude
  import opened Etag

  // ---------- the grammar ----------

  /** etagc: visible characters but the double quote, and obs-text. */
  predicate IsEtagChar(c: char) {
    c == '!' || '#' <= c <= '~' || c >= 128 as char
  }

  /** entity-tag of section 2.3 of RFC 7232. */
  predicate IsEntityTag(tag: Tag) {
    forall i :: 0 <= i < |tag.opaquePart| ==> IsEtagChar(tag.opaquePart[i])
  }

  /** What stands between two commas: a tag or, in an empty element, none, and white space around it. */
  datatype Item = Item(before: Bytes, tag: Option<Tag>, after: Bytes) {
    predicate Valid() {
      && AllOws(before) && AllOws(after)
      && match tag
         case None => after == []
         case Some(t) => IsEntityTag(t)
    }

    function Text(): Bytes {
      before + ((if tag.Some? then tag.value.Text() else []) + after)
    }
  }

  function ListText(items: seq<Item>): Bytes
    requires items != []
  {
    if |items| == 1 then items[0].Text() else items[0].Text() + ([','] + ListText(items[1..]))
  }

  /** Items of which the last has no white space after it, nor before it when it is empty. */
  predicate Trimmed(items: seq<Item>) {
    && items != []
    && (forall i :: 0 <= i < |items| ==> items[i].Valid())
    && var last := items[|items| - 1];
    && last.after == [] && (last.tag.None? ==> last.before == [])
  }

  /**
   The rule `1#entity-tag`: at least one tag; empty elements are allowed, and white space next to
   the commas, but not around the whole list.
   */
  predicate TagItems(items: seq<Item>) {
    && Trimmed(items) && items[0].before == []
    && exists i :: 0 <= i < |items| && items[i].tag.Some?
  }

  function TagsOf(items: seq<Item>): seq<Tag> {
    if items == [] then []
    else (if items[0].tag.Some? then [items[0].tag.value] else []) + TagsOf(items[1..])
  }

  // ---------- the text of a list ----------

  /** The text of an item without the white space before it. */
  function Stem(item: Item): Bytes {
    (if item.tag.Some? then item.tag.value.Text() else []) + item.after
  }

  predicate StartsPlain(s: Bytes) {
    s == [] || !IsOws(s[0])
  }

  /** The list without the white space before its first item. */
  function Unpadded(items: seq<Item>): Bytes
    requires items != []
  {
    if |items| == 1 then Stem(items[0]) else Stem(items[0]) + ([','] + ListText(items[1..]))
  }

  lemma TagStarts(tag: Tag)
    ensures tag.Text() != [] && (tag.Text()[0] == '"' || tag.Text()[0] == 'W')
  {
  }

  lemma PaddedList(items: seq<Item>)
    requires Trimmed(items)
    ensures ListText(items) == items[0].before + Unpadded(items)
    ensures StartsPlain(Unpadded(items)) && SkipOws(ListText(items)) == Unpadded(items)
  {
    var item := items[0];
    if item.tag.Some? {
      TagStarts(item.tag.value);
    }
    if |items| > 1 {
      Reassociate(item.before, Stem(item), [','] + ListText(items[1..]));
    }
    SkipOwsOf(item.before, Unpadded(items));
  }

  // ---------- what the scanner makes of a list ----------

  /** No white space before a comma, and no empty element but a last one after a comma. */
  predicate Tight(items: seq<Item>) {
    forall i :: 0 <= i < |items| ==> items[i].after == [] && (items[i].tag.None? ==> i == |items| - 1)
  }

  lemma ValidTag(tag: Tag)
    requires IsEntityTag(tag)
    ensures tag.Valid()
  {
  }

  /** What comes after the tag of the first item. */
  function AfterTag(items: seq<Item>): Bytes
    requires items != []
  {
    if |items| == 1 then items[0].after else items[0].after + ([','] + ListText(items[1..]))
  }

  lemma TagFirst(items: seq<Item>)
    requires Trimmed(items) && items[0].tag.Some?
    ensures var t := items[0].tag.value.Text();
            Unpadded(items) == t + AfterTag(items) && TagEnd(Unpadded(items)) == Some(|t|)
  {
    var t := items[0].tag.value.Text();
    if |items| > 1 {
      Reassociate(t, items[0].after, [','] + ListText(items[1..]));
    }
    ValidTag(items[0].tag.value);
    TagEndOf(items[0].tag.value, AfterTag(items));
  }

  lemma ScanTagThen(t: Bytes, rest: Bytes)
    requires TagEnd(t + rest) == Some(|t|)
    ensures Scan(t + rest) == ([t] + Scan(SkipSeparator(rest)).0, Scan(SkipSeparator(rest)).1)
  {
    assert (t + rest)[..|t|] == t && (t + rest)[|t|..] == rest;
  }

  lemma CorruptStart(s: Bytes)
    requires s != [] && (s[0] == ',' || IsOws(s[0]))
    ensures SkipSeparator(s) == s || s[0] == ','
    ensures Scan(s) == ([], true)
  {
  }

  /** Scanning an item list is corrupt exactly when it is not tight, and otherwise returns its tags. */
  ghost predicate ScansAs(s: Bytes, items: seq<Item>) {
    if Tight(items) then Scan(s) == (Texts(TagsOf(items)), false) else Scan(s).1
  }

  lemma TightTail(items: seq<Item>)
    requires |items| > 1
    ensures Tight(items) <==> items[0].after == [] && items[0].tag.Some? && Tight(items[1..])
  {
    assert forall i :: 1 <= i < |items| ==> items[i] == items[1..][i - 1];
  }

  lemma {:induction false} ScanItems(items: seq<Item>)
    requires Trimmed(items)
    ensures ScansAs(Unpadded(items), items)
  {
    if |items| == 1 {
      ScanLast(items);
    } else if items[0].tag.None? {
      ScanEmpty(items);
    } else if items[0].after != [] {
      ScanSpaced(items);
    } else {
      ScanItems(items[1..]);
      ScanTagged(items);
    }
  }

  lemma ScanEmpty(items: seq<Item>)
    requires Trimmed(items) && |items| > 1 && items[0].tag.None?
    ensures ScansAs(Unpadded(items), items)
  {
    assert Unpadded(items) == [','] + ListText(items[1..]);
    CorruptStart(Unpadded(items));
  }

  lemma ScanSpaced(items: seq<Item>)
    requires Trimmed(items) && items[0].tag.Some? && items[0].after != []
    ensures ScansAs(Unpadded(items), items)
  {
    TagFirst(items);
    ScanTagThen(items[0].tag.value.Text(), AfterTag(items));
    CorruptStart(AfterTag(items));
  }

  lemma ScanTagged(items: seq<Item>)
    requires Trimmed(items) && |items| > 1 && items[0].tag.Some? && items[0].after == []
    requires ScansAs(Unpadded(items[1..]), items[1..])
    ensures ScansAs(Unpadded(items), items)
  {
    TagFirst(items);
    ScanTagThen(items[0].tag.value.Text(), AfterTag(items));
    PaddedList(items[1..]);
    AfterComma(AfterTag(items), ListText(items[1..]));
    TightTail(items);
    ConsTexts(items);
  }

  lemma ConsTexts(items: seq<Item>)
    requires items != [] && items[0].tag.Some?
    ensures Texts(TagsOf(items)) == [items[0].tag.value.Text()] + Texts(TagsOf(items[1..]))
  {
    assert TagsOf(items)[1..] == TagsOf(items[1..]);
  }

  lemma AfterComma(s: Bytes, rest: Bytes)
    requires s == [] + ([','] + rest)
    ensures SkipSeparator(s) == SkipOws(rest)
  {
    assert s[1..] == rest;
  }

  lemma ScanLast(items: seq<Item>)
    requires Trimmed(items) && |items| == 1
    ensures ScansAs(Unpadded(items), items)
  {
    assert TagsOf(items[1..]) == [];
    if items[0].tag.Some? {
      TagFirst(items);
      ScanTagThen(items[0].tag.value.Text(), AfterTag(items));
      assert TagsOf(items) == [items[0].tag.value];
      assert Texts(TagsOf(items)[1..]) == [];
    }
  }

  /**
   For every list that the RFCs allow, the scanner reads the same tags exactly when no white space
   precedes a comma and no element is empty but a last one; all other lists it takes for corrupt.
   */
  lemma ScanAgreesIff(items: seq<Item>)
    requires TagItems(items)
    ensures Scan(ListText(items)) == (Texts(TagsOf(items)), false) <==> Tight(items)
    ensures Scan(ListText(items)).1 <==> !Tight(items)
  {
    PaddedList(items);
    assert [] + Unpadded(items) == Unpadded(items);
    ScanItems(items);
  }

  // ---------- a list is read in one way only ----------

  lemma TextOnce(a: Tag, b: Tag)
    requires a.Text() == b.Text()
    ensures a == b
  {
    ComparisonMeaning(a, b);
    Stripped(a);
    Stripped(b);
  }

  lemma SameStart(a: seq<Item>, b: seq<Item>)
    requires Trimmed(a) && Trimmed(b) && ListText(a) == ListText(b)
    ensures a[0].before == b[0].before && Unpadded(a) == Unpadded(b)
  {
    PaddedList(a);
    PaddedList(b);
    var s := ListText(a);
    assert a[0].before == s[..|s| - |Unpadded(a)|] == b[0].before;
  }

  /** The tag of an item, if it has one, is what the text starts with. */
  lemma TagShows(items: seq<Item>)
    requires Trimmed(items)
    ensures items[0].tag.Some? <==> Unpadded(items) != [] && Unpadded(items)[0] != ','
    ensures items[0].tag.None? ==> Unpadded(items) == AfterTag(items)
  {
    if items[0].tag.Some? {
      TagStarts(items[0].tag.value);
      TagFirst(items);
    }
  }

  lemma SameTag(a: seq<Item>, b: seq<Item>)
    requires Trimmed(a) && Trimmed(b) && Unpadded(a) == Unpadded(b)
    ensures a[0].tag == b[0].tag && AfterTag(a) == AfterTag(b)
  {
    TagShows(a);
    TagShows(b);
    if a[0].tag.Some? {
      TagFirst(a);
      TagFirst(b);
      var s, n := Unpadded(a), |a[0].tag.value.Text()|;
      assert s[..n] == a[0].tag.value.Text() && s[..n] == b[0].tag.value.Text();
      assert s[n..] == AfterTag(a) && s[n..] == AfterTag(b);
      TextOnce(a[0].tag.value, b[0].tag.value);
    }
  }

  /** What comes after the white space that follows the tag of the first item. */
  function AfterItem(items: seq<Item>): Bytes
    requires items != []
  {
    if |items| == 1 then [] else [','] + ListText(items[1..])
  }

  lemma SameEnd(a: seq<Item>, b: seq<Item>)
    requires Trimmed(a) && Trimmed(b) && AfterTag(a) == AfterTag(b)
    ensures a[0].after == b[0].after && AfterItem(a) == AfterItem(b)
  {
    var s := AfterTag(a);
    assert s == a[0].after + AfterItem(a) && s == b[0].after + AfterItem(b);
    SkipOwsOf(a[0].after, AfterItem(a));
    SkipOwsOf(b[0].after, AfterItem(b));
    assert a[0].after == s[..|s| - |AfterItem(a)|] && b[0].after == s[..|s| - |AfterItem(b)|];
  }

  lemma {:induction false} ReadOnce(a: seq<Item>, b: seq<Item>)
    requires Trimmed(a) && Trimmed(b) && ListText(a) == ListText(b)
    ensures a == b
  {
    SameStart(a, b);
    SameTag(a, b);
    SameEnd(a, b);
    assert a[0] == b[0];
    if |a| > 1 && |b| > 1 {
      assert ListText(a[1..]) == AfterItem(a)[1..] && ListText(b[1..]) == AfterItem(b)[1..];
      ReadOnce(a[1..], b[1..]);
      assert a == [a[0]] + a[1..] && b == [b[0]] + b[1..];
    }
  }

  // ---------- the conditions ----------

  /** `value` is a list that the RFCs allow. */
  ghost predicate IsRfcList(value: Bytes) {
    exists items :: TagItems(items) && ListText(items) == value
  }

  /** The items of such a list; there is one reading only. */
  ghost function ItemsOf(value: Bytes): (items: seq<Item>)
    requires IsRfcList(value)
    ensures TagItems(items) && ListText(items) == value
    ensures forall other :: TagItems(other) && ListText(other) == value ==> other == items
  {
    var items :| TagItems(items) && ListText(items) == value;
    assert forall other :: TagItems(other) && ListText(other) == value ==> other == items by {
      forall other | TagItems(other) && ListText(other) == value
        ensures other == items
      {
        ReadOnce(other, items);
      }
    }
    items
  }

  /** The field value of `If-Match` or `If-None-Match`: `*` or a list. */
  ghost predicate IsField(value: Bytes) {
    value == "*" || IsRfcList(value)
  }

  /** The selected representation has a tag that the field lists, compared strongly or weakly; `*` matches any. */
  ghost predicate Matches(etag: Option<Bytes>, value: Bytes, strongly: bool)
    requires IsField(value)
  {
    value == "*" ||
    exists e: Tag :: etag == Some(e.Text()) && SomeTagMatches(TagsOf(ItemsOf(value)), e, strongly)
  }

  /** A list that the RFCs allow, with white space before a comma or an empty element that is not the last. */
  ghost predicate Loose(value: Bytes)
    requires IsField(value)
  {
    value != "*" && !Tight(ItemsOf(value))
  }

  lemma StarIsNoList()
    ensures !IsRfcList("*")
  {
    if IsRfcList("*") {
      var items := ItemsOf("*");
      PaddedList(items);
      TagShows(items);
      if items[0].tag.Some? {
        TagStarts(items[0].tag.value);
        TagFirst(items);
      }
    }
  }

  lemma MatchingTexts(tags: seq<Tag>, etag: Bytes)
    ensures AnyStrong(Texts(tags), etag) <==> exists e: Tag :: etag == e.Text() && SomeTagMatches(tags, e, true)
    ensures AnyWeak(Texts(tags), etag) <==> exists e: Tag :: etag == e.Text() && SomeTagMatches(tags, e, false)
  {
    if e: Tag :| etag == e.Text() {
      MatchingMeaning(tags, e);
      forall other: Tag | etag == other.Text()
        ensures other == e
      {
        TextOnce(other, e);
      }
    } else {
      NoTagNoMatch(tags, etag);
    }
  }

  /** Whatever a tag matches weakly is a tag. */
  lemma WeakMatchIsTag(tag: Tag, etag: Bytes)
    requires WeakEq(tag.Text(), etag)
    ensures exists e: Tag :: etag == e.Text()
  {
    Stripped(tag);
    var quoted := "\"" + (tag.opaquePart + "\"");
    if WEAK <= etag {
      assert etag == WEAK + etag[2..] == WEAK + quoted;
      assert etag == Tag(true, tag.opaquePart).Text();
    } else {
      assert etag == Tag(false, tag.opaquePart).Text();
    }
  }

  /** So nothing matches an entity's tag that is no entity-tag at all. */
  lemma NoTagNoMatch(tags: seq<Tag>, etag: Bytes)
    requires forall e: Tag :: etag != e.Text()
    ensures !AnyWeak(Texts(tags), etag) && !AnyStrong(Texts(tags), etag)
  {
    TextsLength(tags);
    forall i | 0 <= i < |tags|
      ensures !WeakEq(Texts(tags)[i], etag)
    {
      TextsAt(tags, i);
      if WeakEq(tags[i].Text(), etag) {
        WeakMatchIsTag(tags[i], etag);
      }
    }
  }

  lemma {:induction false} TextsLength(tags: seq<Tag>)
    ensures |Texts(tags)| == |tags|
  {
    if tags != [] {
      TextsLength(tags[1..]);
    }
  }

  /** `If-Match` is as section 3.1 of RFC 7232 says, unless a loose list is compared with a tag. */
  lemma AnyMatchMeaning(etag: Option<Bytes>, value: Bytes)
    requires IsField(value)
    ensures AnyMatchSpec(etag, Some(value)) ==
            if etag.Some? && Loose(value) then None else Some(Matches(etag, value, true))
  {
    if value != "*" && etag.Some? {
      var items := ItemsOf(value);
      ScanAgreesIff(items);
      MatchingTexts(TagsOf(items), etag.value);
    }
  }

  /** `If-None-Match` is as section 3.2 of RFC 7232 says, unless a loose list is compared with a tag. */
  lemma NoneMatchMeaning(etag: Option<Bytes>, value: Bytes)
    requires IsField(value)
    ensures NoneMatchSpec(etag, Some(value)) ==
            if etag.Some? && Loose(value) then None else Some(!Matches(etag, value, false))
  {
    if value != "*" && etag.Some? {
      var items := ItemsOf(value);
      ScanAgreesIff(items);
      MatchingTexts(TagsOf(items), etag.value);
    }
  }

  /** Two tags with a space before the comma. */
  function SpacedItems(a: Tag, b: Tag): seq<Item> {
    [Item([], Some(a), " "), Item([], Some(b), [])]
  }

  lemma SpacedConcat(x: Bytes, y: Bytes)
    ensures (x + " ") + ([','] + y) == x + (" ," + y)
  {
    Reassociate(x, " ", [','] + y);
    Reassociate(" ", [','], y);
  }

  lemma TwoItems(items: seq<Item>)
    requires |items| == 2
    ensures ListText(items) == items[0].Text() + ([','] + items[1].Text())
  {
  }

  lemma SpacedText(a: Tag, b: Tag)
    ensures ListText(SpacedItems(a, b)) == a.Text() + (" ," + b.Text())
  {
    TwoItems(SpacedItems(a, b));
    SpacedConcat(a.Text(), b.Text());
    ItemTexts(a, b);
  }

  lemma ItemTexts(a: Tag, b: Tag)
    ensures Item([], Some(a), " ").Text() == a.Text() + " " && Item([], Some(b), []).Text() == b.Text()
  {
  }

  lemma SpacedIsList(a: Tag, b: Tag)
    requires IsEntityTag(a) && IsEntityTag(b)
    ensures TagItems(SpacedItems(a, b)) && !Tight(SpacedItems(a, b)) && a in TagsOf(SpacedItems(a, b))
  {
    var items := SpacedItems(a, b);
    assert items[0].tag.Some? && items[0].after != [];
    assert TagsOf(items)[0] == a;
  }

  /** Loose lists exist: any two tags with a space before the comma. */
  lemma SpaceBeforeCommaIsLoose(a: Tag, b: Tag)
    requires IsEntityTag(a) && IsEntityTag(b)
    ensures var value := a.Text() + (" ," + b.Text());
            IsField(value) && Loose(value) && Matches(Some(a.Text()), value, !a.weak)
  {
    var value := a.Text() + (" ," + b.Text());
    SpacedText(a, b);
    SpacedIsList(a, b);
    assert ItemsOf(value) == SpacedItems(a, b);
    var tags := TagsOf(ItemsOf(value));
    var i :| 0 <= i < |tags| && tags[i] == a;
    assert SomeTagMatches(tags, a, !a.weak);
    StarIsNoList();
  }
}
