/**
 `src/etag.rs`: entity-tag comparison and the hand-written scanner of `If-Match` and
 `If-None-Match` lists.
 */
module Etag {
  import opened Prelude

  const WEAK: Bytes := "W/"

  function WithoutWeak(t: Bytes): Bytes {
    if WEAK <= t then t[2..] else t
  }

  predicate WeakEq(a: Bytes, b: Bytes) {
    WithoutWeak(a) == WithoutWeak(b)
  }

  predicate StrongEq(a: Bytes, b: Bytes) {
    a == b && !(WEAK <= a)
  }

  // ---------- the scanner ----------

  /** The length of the tag that `s` starts with, if it starts with one. */
  function TagEnd(s: Bytes): (n: Option<nat>)
    ensures n.Some? ==> 0 < n.value <= |s|
  {
    if "W/\"" <= s then
      var p := Find(s[3..], '"');
      if 3 + p == |s| then None else Some(3 + p + 1)
    else if "\"" <= s then
      var p := Find(s[1..], '"');
      if 1 + p == |s| then None else Some(1 + p + 1)
    else None
  }

  /** The separator after a tag: an optional comma, and white space only after a comma. */
  function SkipSeparator(s: Bytes): (r: Bytes)
    ensures |r| <= |s|
  {
    if s != [] && s[0] == ',' then SkipOws(s[1..]) else s
  }

  /** Everything the scanner returns from `s`, and whether it ends up corrupt. */
  function Scan(s: Bytes): (seq<Bytes>, bool)
    decreases |s|
  {
    if s == [] then ([], false)
    else
      match TagEnd(s)
      case None => ([], true)
      case Some(n) =>
        var (rest, corrupt) := Scan(SkipSeparator(s[n..]));
        ([s[..n]] + rest, corrupt)
  }

  class List {
    var remaining: Bytes
    var corrupt: bool

    constructor From(l: Bytes)
      ensures remaining == l && !corrupt
    {
      remaining := l;
      corrupt := false;
    }

    /** Takes one tag off the list; whatever it returns, the rest of the scan is unchanged. */
    method Next() returns (item: Option<Bytes>)
      modifies this
      ensures item.Some? ==>
                && |remaining| < |old(remaining)| && corrupt == old(corrupt)
                && Scan(old(remaining)) == ([item.value] + Scan(remaining).0, Scan(remaining).1)
      ensures item.None? ==>
                && remaining == old(remaining)
                && Scan(remaining) == ([], remaining != [])
                && corrupt == (old(corrupt) || remaining != [])
    {
      if remaining == [] {
        return None;
      }
      var end := TagEnd(remaining);
      if end.None? {
        corrupt := true;
        return None;
      }
      var etag, rem := remaining[..end.value], remaining[end.value..];
      if rem != [] && rem[0] == ',' {
        rem := rem[1..];
        while rem != [] && IsOws(rem[0])
          invariant SkipOws(rem) == SkipSeparator(remaining[end.value..])
          invariant |rem| <= |remaining| - end.value
          decreases |rem|
        {
          rem := rem[1..];
        }
      }
      assert rem == SkipSeparator(remaining[end.value..]);
      remaining := rem;
      return Some(etag);
    }
  }

  // ---------- the two conditions ----------

  predicate AnyWeak(items: seq<Bytes>, etag: Bytes) {
    exists i :: 0 <= i < |items| && WeakEq(items[i], etag)
  }

  predicate AnyStrong(items: seq<Bytes>, etag: Bytes) {
    exists i :: 0 <= i < |items| && StrongEq(items[i], etag)
  }

  /** `If-None-Match`: `None` when the header is absent or must be ignored. */
  function NoneMatchSpec(etag: Option<Bytes>, header: Option<Bytes>): Option<bool> {
    if header.None? then None
    else if header.value == "*" then Some(false)
    else if etag.None? then Some(true)
    else if Scan(header.value).1 then None
    else Some(!AnyWeak(Scan(header.value).0, etag.value))
  }

  /** `If-Match`: `None` is the source's "unparseable" error. */
  function AnyMatchSpec(etag: Option<Bytes>, header: Option<Bytes>): Option<bool> {
    if header.None? || header.value == "*" then Some(true)
    else if etag.None? then Some(false)
    else if Scan(header.value).1 then None
    else Some(AnyStrong(Scan(header.value).0, etag.value))
  }

  lemma AnyWeakCons(item: Bytes, rest: seq<Bytes>, etag: Bytes)
    ensures AnyWeak([item] + rest, etag) <==> WeakEq(item, etag) || AnyWeak(rest, etag)
  {
    var items := [item] + rest;
    assert items[0] == item && forall i :: 0 <= i < |rest| ==> items[i + 1] == rest[i];
    assert forall i :: 1 <= i < |items| ==> items[i] == rest[i - 1];
  }

  lemma AnyStrongCons(item: Bytes, rest: seq<Bytes>, etag: Bytes)
    ensures AnyStrong([item] + rest, etag) <==> StrongEq(item, etag) || AnyStrong(rest, etag)
  {
    var items := [item] + rest;
    assert items[0] == item && forall i :: 0 <= i < |rest| ==> items[i + 1] == rest[i];
    assert forall i :: 1 <= i < |items| ==> items[i] == rest[i - 1];
  }

  method NoneMatch(etag: Option<Bytes>, header: Option<Bytes>) returns (res: Option<bool>)
    ensures res == NoneMatchSpec(etag, header)
  {
    if header.None? {
      return None;
    }
    var m := header.value;
    if m == "*" {
      return Some(false);
    }
    var noneMatch := true;
    if etag.Some? {
      var items := new List.From(m);
      var item := items.Next();
      if item.Some? {
        AnyWeakCons(item.value, Scan(items.remaining).0, etag.value);
      }
      while item.Some?
        invariant !items.corrupt || item.None?
        invariant item.Some? ==> Scan(m).1 == Scan(items.remaining).1
        invariant item.Some? ==>
          (AnyWeak(Scan(m).0, etag.value) <==>
           !noneMatch || WeakEq(item.value, etag.value) || AnyWeak(Scan(items.remaining).0, etag.value))
        invariant item.None? ==> Scan(m).1 == items.corrupt
        invariant item.None? ==> (AnyWeak(Scan(m).0, etag.value) <==> !noneMatch)
        decreases item.Some?, |items.remaining|
      {
        if noneMatch && WeakEq(item.value, etag.value) {
          noneMatch := false;
        }
        item := items.Next();
        if item.Some? {
          AnyWeakCons(item.value, Scan(items.remaining).0, etag.value);
        }
      }
      if items.corrupt {
        return None;
      }
    }
    return Some(noneMatch);
  }

  method AnyMatch(etag: Option<Bytes>, header: Option<Bytes>) returns (res: Option<bool>)
    ensures res == AnyMatchSpec(etag, header)
  {
    if header.None? {
      return Some(true);
    }
    var m := header.value;
    if m == "*" {
      return Some(true);
    }
    var anyMatch := false;
    if etag.Some? {
      var items := new List.From(m);
      var item := items.Next();
      if item.Some? {
        AnyStrongCons(item.value, Scan(items.remaining).0, etag.value);
      }
      while item.Some?
        invariant !items.corrupt || item.None?
        invariant item.Some? ==> Scan(m).1 == Scan(items.remaining).1
        invariant item.Some? ==>
          (AnyStrong(Scan(m).0, etag.value) <==>
           anyMatch || StrongEq(item.value, etag.value) || AnyStrong(Scan(items.remaining).0, etag.value))
        invariant item.None? ==> Scan(m).1 == items.corrupt
        invariant item.None? ==> (AnyStrong(Scan(m).0, etag.value) <==> anyMatch)
        decreases item.Some?, |items.remaining|
      {
        if !anyMatch && StrongEq(item.value, etag.value) {
          anyMatch := true;
        }
        item := items.Next();
        if item.Some? {
          AnyStrongCons(item.value, Scan(items.remaining).0, etag.value);
        }
      }
      if items.corrupt {
        return None;
      }
    }
    return Some(anyMatch);
  }

  // ---------- what the scanner accepts ----------

  /** An entity-tag of section 2.3 of RFC 7232: the opaque part has no double quote. */
  datatype Tag = Tag(weak: bool, opaquePart: Bytes) {
    predicate Valid() {
      '"' !in opaquePart
    }

    function Text(): Bytes {
      if weak then "W/\"" + (opaquePart + "\"") else "\"" + (opaquePart + "\"")
    }
  }

  /** What the scanner takes for a separator: nothing, or a comma and white space. */
  predicate Separator(s: Bytes) {
    s == [] || (s[0] == ',' && AllOws(s[1..]))
  }

  function TagList(tags: seq<Tag>, seps: seq<Bytes>): Bytes
    requires |tags| == |seps|
  {
    if tags == [] then [] else tags[0].Text() + (seps[0] + TagList(tags[1..], seps[1..]))
  }

  function Texts(tags: seq<Tag>): seq<Bytes> {
    if tags == [] then [] else [tags[0].Text()] + Texts(tags[1..])
  }

  lemma WeakTagEnd(o: Bytes, rest: Bytes)
    requires '"' !in o
    ensures TagEnd("W/\"" + (o + "\"") + rest) == Some(|o| + 4)
  {
    FindMiddle(o, '"', rest);
    var s := "W/\"" + (o + "\"") + rest;
    assert s[3..] == o + ['"'] + rest;
  }

  lemma StrongTagEnd(o: Bytes, rest: Bytes)
    requires '"' !in o
    ensures TagEnd("\"" + (o + "\"") + rest) == Some(|o| + 2)
  {
    FindMiddle(o, '"', rest);
    var s := "\"" + (o + "\"") + rest;
    assert s[0] == '"' && s[1..] == o + ['"'] + rest;
  }

  lemma TagEndOf(tag: Tag, rest: Bytes)
    requires tag.Valid()
    ensures TagEnd(tag.Text() + rest) == Some(|tag.Text()|)
  {
    if tag.weak {
      WeakTagEnd(tag.opaquePart, rest);
    } else {
      StrongTagEnd(tag.opaquePart, rest);
    }
  }

  lemma SkipSeparatorOf(sep: Bytes, rest: Bytes)
    requires Separator(sep) && (rest == [] || rest[0] == '"' || rest[0] == 'W')
    ensures SkipSeparator(sep + rest) == rest
  {
    if sep == [] {
      assert sep + rest == rest;
    } else {
      assert (sep + rest)[1..] == sep[1..] + rest;
      SkipOwsOf(sep[1..], rest);
    }
  }

  lemma TagListStart(tags: seq<Tag>, seps: seq<Bytes>)
    requires |tags| == |seps|
    ensures var s := TagList(tags, seps); s == [] || s[0] == '"' || s[0] == 'W'
  {
    if tags != [] {
      assert TagList(tags, seps)[0] == tags[0].Text()[0];
    }
  }

  /** Every tag is valid and is followed by a separator. */
  ghost predicate Lawful(tags: seq<Tag>, seps: seq<Bytes>) {
    && |tags| == |seps|
    && (forall i :: 0 <= i < |tags| ==> tags[i].Valid())
    && (forall i :: 0 <= i < |seps| ==> Separator(seps[i]))
  }

  /** One step of the scan, on a tag text `t`. */
  lemma ScanOne(t: Bytes, sep: Bytes, rest: Bytes)
    requires TagEnd(t + (sep + rest)) == Some(|t|) && SkipSeparator(sep + rest) == rest
    ensures Scan(t + (sep + rest)) == ([t] + Scan(rest).0, Scan(rest).1)
  {
    var s := t + (sep + rest);
    assert s[..|t|] == t && s[|t|..] == sep + rest;
  }

  /** Scanning a list of valid tags returns exactly those tags, uncorrupted, whatever the separators. */
  lemma {:induction false} ScanTagList(tags: seq<Tag>, seps: seq<Bytes>)
    requires Lawful(tags, seps)
    ensures Scan(TagList(tags, seps)) == (Texts(tags), false)
  {
    if tags != [] {
      var rest := TagList(tags[1..], seps[1..]);
      TagEndOf(tags[0], seps[0] + rest);
      TagListStart(tags[1..], seps[1..]);
      SkipSeparatorOf(seps[0], rest);
      ScanOne(tags[0].Text(), seps[0], rest);
      ScanTagList(tags[1..], seps[1..]);
    }
  }

  /** The tag that a piece of the scan spells. */
  lemma TagOf(s: Bytes) returns (tag: Tag)
    requires TagEnd(s).Some?
    ensures tag.Valid() && tag.Text() == s[..TagEnd(s).value]
  {
    var n := TagEnd(s).value;
    if "W/\"" <= s {
      tag := Tag(true, s[3..n - 1]);
      assert s[3..n - 1] == s[3..][..n - 4];
      assert s[..n] == s[..3] + (s[3..n - 1] + [s[n - 1]]);
      assert s[..3] == "W/\"";
    } else {
      tag := Tag(false, s[1..n - 1]);
      assert s[1..n - 1] == s[1..][..n - 2];
      assert s[..n] == s[..1] + (s[1..n - 1] + [s[n - 1]]);
    }
  }

  lemma {:induction false} OwsOf(s: Bytes) returns (ows: Bytes)
    ensures AllOws(ows) && s == ows + SkipOws(s)
  {
    if s != [] && IsOws(s[0]) {
      ows := OwsOf(s[1..]);
      ows := [s[0]] + ows;
    } else {
      ows := [];
    }
  }

  lemma SeparatorOf(s: Bytes) returns (sep: Bytes)
    ensures Separator(sep) && s == sep + SkipSeparator(s)
  {
    if s != [] && s[0] == ',' {
      var ows := OwsOf(s[1..]);
      sep := [','] + ows;
      assert sep[1..] == ows;
    } else {
      sep := [];
    }
  }

  lemma Rejoin(s: Bytes, n: nat, head: Bytes, sep: Bytes, rest: Bytes)
    requires n <= |s| && head == s[..n] && s[n..] == sep + rest
    ensures s == head + (sep + rest)
  {
  }

  lemma ScanRest(s: Bytes)
    requires s != [] && TagEnd(s).Some?
    ensures Scan(s).1 == Scan(SkipSeparator(s[TagEnd(s).value..])).1
  {
  }

  /** What one step of the scan takes off. */
  lemma TakeOne(s: Bytes) returns (tag: Tag, sep: Bytes, rest: Bytes)
    requires s != [] && TagEnd(s).Some?
    ensures tag.Valid() && Separator(sep) && s == tag.Text() + (sep + rest) && |rest| < |s|
    ensures Scan(s).1 == Scan(rest).1
  {
    var n := TagEnd(s).value;
    tag := TagOf(s);
    sep := SeparatorOf(s[n..]);
    rest := SkipSeparator(s[n..]);
    Rejoin(s, n, tag.Text(), sep, rest);
    ScanRest(s);
  }

  lemma TagListCons(tag: Tag, sep: Bytes, tags: seq<Tag>, seps: seq<Bytes>)
    requires Lawful(tags, seps) && tag.Valid() && Separator(sep)
    ensures Lawful([tag] + tags, [sep] + seps)
    ensures TagList([tag] + tags, [sep] + seps) == tag.Text() + (sep + TagList(tags, seps))
  {
    assert ([tag] + tags)[1..] == tags && ([sep] + seps)[1..] == seps;
  }

  lemma {:induction false} UncorruptedIsTagList(s: Bytes) returns (tags: seq<Tag>, seps: seq<Bytes>)
    requires !Scan(s).1
    ensures Lawful(tags, seps) && TagList(tags, seps) == s
    decreases |s|
  {
    tags, seps := [], [];
    if s != [] {
      var tag, sep, rest := TakeOne(s);
      tags, seps := UncorruptedIsTagList(rest);
      TagListCons(tag, sep, tags, seps);
      tags, seps := [tag] + tags, [sep] + seps;
    }
  }

  ghost predicate IsTagList(s: Bytes) {
    exists tags: seq<Tag>, seps: seq<Bytes> :: Lawful(tags, seps) && TagList(tags, seps) == s
  }

  /**
   The scanner's language: a value is uncorrupted exactly when it is a sequence of valid tags,
   each followed by nothing or by a comma and white space.
   */
  lemma UncorruptedIff(s: Bytes)
    ensures !Scan(s).1 <==> IsTagList(s)
  {
    if !Scan(s).1 {
      var tags, seps := UncorruptedIsTagList(s);
    } else if IsTagList(s) {
      var tags: seq<Tag>, seps: seq<Bytes> :| Lawful(tags, seps) && TagList(tags, seps) == s;
      ScanTagList(tags, seps);
    }
  }

  // ---------- comparison ----------

  /** Section 2.3.2 of RFC 7232, on parsed tags. */
  lemma ComparisonMeaning(a: Tag, b: Tag)
    ensures WeakEq(a.Text(), b.Text()) <==> a.opaquePart == b.opaquePart
    ensures StrongEq(a.Text(), b.Text()) <==> !a.weak && !b.weak && a.opaquePart == b.opaquePart
  {
    Stripped(a);
    Stripped(b);
    if a.Text() == b.Text() {
      assert a.Text()[0] == b.Text()[0];
    }
  }

  lemma Stripped(t: Tag)
    ensures WithoutWeak(t.Text()) == "\"" + (t.opaquePart + "\"")
    ensures WEAK <= t.Text() <==> t.weak
    ensures ("\"" + (t.opaquePart + "\""))[1..][..|t.opaquePart|] == t.opaquePart
  {
    var quoted := "\"" + (t.opaquePart + "\"");
    assert quoted[1..] == t.opaquePart + "\"";
    assert quoted[0] == '"';
    if t.weak {
      assert t.Text()[2..] == quoted;
    }
  }

  ghost predicate SomeTagMatches(tags: seq<Tag>, etag: Tag, strongly: bool) {
    exists i :: 0 <= i < |tags| && tags[i].opaquePart == etag.opaquePart &&
      (strongly ==> !tags[i].weak && !etag.weak)
  }

  lemma {:induction false} TextsAt(tags: seq<Tag>, i: nat)
    requires i < |tags|
    ensures |Texts(tags)| == |tags| && Texts(tags)[i] == tags[i].Text()
  {
    if i > 0 {
      TextsAt(tags[1..], i - 1);
    } else if |tags| > 1 {
      TextsAt(tags[1..], 0);
    }
  }

  /** Matching a list of tags is comparing the parsed tags, weakly or strongly (section 2.3.2 of RFC 7232). */
  lemma MatchingMeaning(tags: seq<Tag>, etag: Tag)
    ensures AnyWeak(Texts(tags), etag.Text()) <==> SomeTagMatches(tags, etag, false)
    ensures AnyStrong(Texts(tags), etag.Text()) <==> SomeTagMatches(tags, etag, true)
  {
    forall i | 0 <= i < |tags|
      ensures |Texts(tags)| == |tags|
      ensures WeakEq(Texts(tags)[i], etag.Text()) <==> tags[i].opaquePart == etag.opaquePart
      ensures StrongEq(Texts(tags)[i], etag.Text()) <==>
              !tags[i].weak && !etag.weak && tags[i].opaquePart == etag.opaquePart
    {
      TextsAt(tags, i);
      ComparisonMeaning(tags[i], etag);
    }
  }

  /**
   For a well-formed list and an entity with tag `etag`: `If-Match` holds exactly when some listed
   tag matches strongly, and `If-None-Match` exactly when none matches weakly.
   */
  lemma ConditionMeaning(tags: seq<Tag>, seps: seq<Bytes>, etag: Tag)
    requires Lawful(tags, seps)
    ensures AnyMatchSpec(Some(etag.Text()), Some(TagList(tags, seps))) == Some(SomeTagMatches(tags, etag, true))
    ensures NoneMatchSpec(Some(etag.Text()), Some(TagList(tags, seps))) == Some(!SomeTagMatches(tags, etag, false))
  {
    ScanTagList(tags, seps);
    MatchingMeaning(tags, etag);
    TagListStart(tags, seps);
  }

  /** A value that satisfies `If-Match` fails `If-None-Match`: the two conditions are never both met. */
  lemma MatchExcludesNoneMatch(etag: Option<Bytes>, value: Bytes)
    requires AnyMatchSpec(etag, Some(value)) == Some(true)
    ensures NoneMatchSpec(etag, Some(value)) == Some(false)
  {
    if value != "*" {
      var items := Scan(value).0;
      var i :| 0 <= i < |items| && StrongEq(items[i], etag.value);
      assert WeakEq(items[i], etag.value);
    }
  }

  /** Text that the scanner cannot take a tag from, and that no separator absorbs. */
  predicate BadTail(tail: Bytes) {
    tail != [] && TagEnd(tail).None? && tail[0] != ',' && !IsOws(tail[0])
  }

  /** A corrupt tail overrides every match before it. */
  lemma CorruptOverrides(tags: seq<Tag>, seps: seq<Bytes>, tail: Bytes, etag: Bytes)
    requires Lawful(tags, seps) && tags != [] && BadTail(tail)
    ensures var value := TagList(tags, seps) + tail;
            NoneMatchSpec(Some(etag), Some(value)) == None && AnyMatchSpec(Some(etag), Some(value)) == None
  {
    ScanCorruptTail(tags, seps, tail);
    assert |tags[0].Text()| >= 2;
    assert |TagList(tags, seps) + tail| > 1;
  }

  lemma {:induction false} ScanCorruptTail(tags: seq<Tag>, seps: seq<Bytes>, tail: Bytes)
    requires Lawful(tags, seps) && BadTail(tail)
    ensures Scan(TagList(tags, seps) + tail) == (Texts(tags), true)
  {
    if tags == [] {
      assert TagList(tags, seps) + tail == tail;
    } else {
      var list := TagList(tags[1..], seps[1..]);
      Reassociate(tags[0].Text(), seps[0] + list, tail);
      Reassociate(seps[0], list, tail);
      TagEndOf(tags[0], seps[0] + (list + tail));
      TagListStart(tags[1..], seps[1..]);
      SeparatorThen(seps[0], list + tail);
      ScanOne(tags[0].Text(), seps[0], list + tail);
      ScanCorruptTail(tags[1..], seps[1..], tail);
    }
  }

  lemma SeparatorThen(sep: Bytes, rest: Bytes)
    requires Separator(sep) && rest != [] && rest[0] != ',' && !IsOws(rest[0])
    ensures SkipSeparator(sep + rest) == rest
  {
    if sep == [] {
      assert sep + rest == rest;
    } else {
      assert (sep + rest)[1..] == sep[1..] + rest;
      SkipOwsOf(sep[1..], rest);
    }
  }
}
