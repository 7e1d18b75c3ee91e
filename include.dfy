/**
  The optional per-photo fields the screen can ask the photo library for, and the
  list of selected fields that the switches edit: switching a field off filters every
  occurrence of it out of the list, switching it on appends it.
*/
module Include {

  /** The `Include` values the screen offers, one switch each. */
  datatype IncludeTag = Filename | FileSize | Location | ImageSize | PlayableDuration

  /** The string each tag stands for in the photo-listing API. */
  function Name(tag: IncludeTag): string {
    match tag
    case Filename => "filename"
    case FileSize => "fileSize"
    case Location => "location"
    case ImageSize => "imageSize"
    case PlayableDuration => "playableDuration"
  }

  /** `includeValues`: the order in which the switches are shown. */
  const IncludeValues: seq<IncludeTag> := [Filename, FileSize, Location, ImageSize, PlayableDuration]

  predicate NoDuplicates(s: seq<IncludeTag>) {
    forall i, j :: 0 <= i < j < |s| ==> s[i] != s[j]
  }

  /** The switches cover the whole vocabulary, each tag once. */
  lemma IncludeValuesEnumerates()
    ensures forall tag: IncludeTag :: tag in IncludeValues
    ensures NoDuplicates(IncludeValues) && |IncludeValues| == 5
  {
    forall tag: IncludeTag ensures tag in IncludeValues {
      match tag
      case Filename => assert IncludeValues[0] == tag;
      case FileSize => assert IncludeValues[1] == tag;
      case Location => assert IncludeValues[2] == tag;
      case ImageSize => assert IncludeValues[3] == tag;
      case PlayableDuration => assert IncludeValues[4] == tag;
    }
  }

  /** Distinct tags are sent to the API under distinct names. */
  lemma NameInjective(a: IncludeTag, b: IncludeTag)
    requires a != b
    ensures Name(a) != Name(b)
  {
  }

  /** `included.filter(value => value !== tag)`. */
  function Without(s: seq<IncludeTag>, tag: IncludeTag): (r: seq<IncludeTag>)
    ensures |r| <= |s|
  {
    if s == [] then []
    else (if s[0] == tag then [] else [s[0]]) + Without(s[1..], tag)
  }

  /** Filtering drops every occurrence of the tag. */
  lemma {:induction false} WithoutExcludes(s: seq<IncludeTag>, tag: IncludeTag)
    ensures tag !in Without(s, tag)
  {
    if s != [] {
      WithoutExcludes(s[1..], tag);
      var head := if s[0] == tag then [] else [s[0]];
      assert Without(s, tag) == head + Without(s[1..], tag);
    }
  }

  /** Filtering keeps every other tag with its multiplicity, and drops as many entries as the tag occurred. */
  lemma {:induction false} WithoutCounts(s: seq<IncludeTag>, tag: IncludeTag)
    ensures forall y :: y != tag ==> multiset(Without(s, tag))[y] == multiset(s)[y]
    ensures |Without(s, tag)| == |s| - multiset(s)[tag]
  {
    if s != [] {
      WithoutCounts(s[1..], tag);
      var head := if s[0] == tag then [] else [s[0]];
      var r, r' := Without(s, tag), Without(s[1..], tag);
      var m, m' := multiset(s), multiset(s[1..]);
      assert r == head + r';
      assert s == [s[0]] + s[1..];
      assert m == multiset{s[0]} + m';
      assert multiset(r) == multiset(head) + multiset(r');
      assert m[tag] == m'[tag] + (if s[0] == tag then 1 else 0);
    }
  }

  /** `idx` lists, in increasing order, positions of `s` that hold the elements of `r`: `r` is a subsequence of `s`. */
  ghost predicate Embeds(idx: seq<nat>, r: seq<IncludeTag>, s: seq<IncludeTag>) {
    |idx| == |r|
    && (forall k :: 0 <= k < |idx| ==> idx[k] < |s| && s[idx[k]] == r[k])
    && (forall k, l :: 0 <= k < l < |idx| ==> idx[k] < idx[l])
  }

  /** Every position moved one place to the right. */
  function Shift(idx: seq<nat>): seq<nat> {
    seq(|idx|, k requires 0 <= k < |idx| => idx[k] + 1)
  }

  /** An embedding into `s` shifts to one into `[x] + s`. */
  lemma EmbedsSkip(idx: seq<nat>, r: seq<IncludeTag>, x: IncludeTag, s: seq<IncludeTag>)
    requires Embeds(idx, r, s)
    ensures Embeds(Shift(idx), r, [x] + s)
  {
  }

  /** An embedding into `s` extends to one of `[x] + r` into `[x] + s`. */
  lemma EmbedsTake(idx: seq<nat>, r: seq<IncludeTag>, x: IncludeTag, s: seq<IncludeTag>)
    requires Embeds(idx, r, s)
    ensures Embeds([0] + Shift(idx), [x] + r, [x] + s)
  {
  }

  /** Filtering keeps the remaining entries in their original relative order. */
  lemma {:induction false} WithoutKeepsOrder(s: seq<IncludeTag>, tag: IncludeTag) returns (idx: seq<nat>)
    ensures Embeds(idx, Without(s, tag), s)
  {
    if s == [] {
      idx := [];
    } else {
      var idx' := WithoutKeepsOrder(s[1..], tag);
      assert s == [s[0]] + s[1..];
      if s[0] == tag {
        assert Without(s, tag) == Without(s[1..], tag);
        EmbedsSkip(idx', Without(s[1..], tag), s[0], s[1..]);
        idx := Shift(idx');
      } else {
        assert Without(s, tag) == [s[0]] + Without(s[1..], tag);
        EmbedsTake(idx', Without(s[1..], tag), s[0], s[1..]);
        idx := [0] + Shift(idx');
      }
    }
  }

  /** Filtering distributes over concatenation: order is preserved piece by piece. */
  lemma {:induction false} WithoutConcat(a: seq<IncludeTag>, b: seq<IncludeTag>, tag: IncludeTag)
    ensures Without(a + b, tag) == Without(a, tag) + Without(b, tag)
  {
    if a != [] {
      assert (a + b)[0] == a[0] && (a + b)[1..] == a[1..] + b;
      WithoutConcat(a[1..], b, tag);
      var head := if a[0] == tag then [] else [a[0]];
      calc {
        Without(a + b, tag);
        head + Without(a[1..] + b, tag);
        head + (Without(a[1..], tag) + Without(b, tag));
        (head + Without(a[1..], tag)) + Without(b, tag);
        Without(a, tag) + Without(b, tag);
      }
    } else {
      assert a + b == b;
    }
  }

  /** Filtering out a tag that is not there changes nothing. */
  lemma {:induction false} WithoutAbsent(s: seq<IncludeTag>, tag: IncludeTag)
    requires tag !in s
    ensures Without(s, tag) == s
  {
    if s != [] {
      WithoutAbsent(s[1..], tag);
    }
  }

  /** `handleIncludeChange`'s new list: filtered when switched off, appended to when switched on. */
  function Toggle(included: seq<IncludeTag>, tag: IncludeTag, changedTo: bool): seq<IncludeTag> {
    if changedTo == false then Without(included, tag) else included + [tag]
  }

  /** The tags a list selects, whatever their multiplicity or order. */
  function Selected(s: seq<IncludeTag>): set<IncludeTag> {
    set tag | tag in s
  }

  /** Switching off removes every occurrence and keeps every other entry, in order and with its multiplicity. */
  lemma ToggleOff(included: seq<IncludeTag>, tag: IncludeTag) returns (idx: seq<nat>)
    ensures tag !in Toggle(included, tag, false)
    ensures forall y :: y != tag ==> multiset(Toggle(included, tag, false))[y] == multiset(included)[y]
    ensures Embeds(idx, Toggle(included, tag, false), included)
  {
    WithoutCounts(included, tag);
    WithoutExcludes(included, tag);
    idx := WithoutKeepsOrder(included, tag);
  }

  /** Switching on appends at the end, so the length grows by one even when the tag is already there. */
  lemma ToggleOn(included: seq<IncludeTag>, tag: IncludeTag)
    ensures |Toggle(included, tag, true)| == |included| + 1
    ensures Toggle(included, tag, true)[..|included|] == included
    ensures Toggle(included, tag, true)[|included|] == tag
    ensures multiset(Toggle(included, tag, true))[tag] == multiset(included)[tag] + 1
  {
  }

  /** There is no de-duplication: switching on a tag that is already selected leaves a duplicate. */
  lemma ToggleOnDuplicates(included: seq<IncludeTag>, tag: IncludeTag)
    requires tag in included
    ensures !NoDuplicates(Toggle(included, tag, true))
  {
    var r := Toggle(included, tag, true);
    var i :| 0 <= i < |included| && included[i] == tag;
    assert r[i] == r[|included|];
  }

  /** Switching on a tag that was absent and then off again gives back the original list. */
  lemma ToggleOnThenOff(included: seq<IncludeTag>, tag: IncludeTag)
    requires tag !in included
    ensures Toggle(Toggle(included, tag, true), tag, false) == included
  {
    WithoutConcat(included, [tag], tag);
    WithoutAbsent(included, tag);
  }

  /** Switching off a tag that is not selected is a no-op. */
  lemma ToggleOffAbsent(included: seq<IncludeTag>, tag: IncludeTag)
    requires tag !in included
    ensures Toggle(included, tag, false) == included
  {
    WithoutAbsent(included, tag);
  }

  /** As a set of selected tags, a toggle adds or removes exactly that tag. */
  lemma ToggleSelected(included: seq<IncludeTag>, tag: IncludeTag, changedTo: bool)
    ensures Selected(Toggle(included, tag, changedTo))
            == if changedTo then Selected(included) + {tag} else Selected(included) - {tag}
  {
    var r := Toggle(included, tag, changedTo);
    if !changedTo {
      WithoutExcludes(included, tag);
      WithoutCounts(included, tag);
      forall y | y in included && y != tag ensures y in r {
        assert multiset(r)[y] == multiset(included)[y];
      }
      forall y | y in r ensures y in included {
        assert multiset(r)[y] == multiset(included)[y];
      }
    }
  }

  /**
    A switch shows `included.includes(tag)` and reports the opposite value when flipped,
    so it only switches on an absent tag; driven that way the list never holds a tag twice.
  */
  lemma SwitchKeepsNoDuplicates(included: seq<IncludeTag>, tag: IncludeTag, changedTo: bool)
    requires NoDuplicates(included)
    requires changedTo == (tag !in included)
    ensures NoDuplicates(Toggle(included, tag, changedTo))
  {
    if !changedTo {
      var r := Toggle(included, tag, false);
      var idx := WithoutKeepsOrder(included, tag);
      forall i, j | 0 <= i < j < |r| ensures r[i] != r[j] {
        assert r[i] == included[idx[i]] && r[j] == included[idx[j]] && idx[i] < idx[j];
      }
    }
  }
}
