/**
 * The legacy metadata format `title:<title>::info:<description>` and the
 * `extract` function that reads it with `indexOf` and `slice`. Offsets
 * count UTF-16 code units, as in JavaScript.
 */
module LegacyMetadata {
  import opened JsString
  import opened Records

  /** "title:" */
  const TitlePattern: JsText := ['t' as int, 'i' as int, 't' as int, 'l' as int, 'e' as int, ':' as int]
  /** "::info:" */
  const InfoPattern: JsText := [':' as int, ':' as int, 'i' as int, 'n' as int, 'f' as int, 'o' as int, ':' as int]
  /** ["Invalid", "Yes", "No"] */
  const LegacyCategories: seq<JsText> :=
    [['I' as int, 'n' as int, 'v' as int, 'a' as int, 'l' as int, 'i' as int, 'd' as int], ['Y' as int, 'e' as int, 's' as int], ['N' as int, 'o' as int]]

  /**
   * `extract`: the description starts right after the first `::info:`
   * (the index of a missing marker is -1), and the title is taken from
   * offset 6 up to that marker, whether or not the text starts with
   * `title:`.
   */
  function Extract(raw: JsText): (m: Metadata)
    ensures m.categories == LegacyCategories
  {
    var info := IndexOf(raw, InfoPattern);
    Metadata(
      title := Slice(raw, |TitlePattern|, info),
      description := SliceFrom(raw, info + |InfoPattern|),
      categories := LegacyCategories)
  }

  /**
   * With the first marker at `i`, the description is everything after it
   * and the title is the text from offset 6 to it (empty when the marker
   * starts before offset 6).
   */
  lemma ExtractWithMarker(raw: JsText, i: nat)
    requires OccursAt(raw, InfoPattern, i)
    requires forall j :: 0 <= j < i ==> !OccursAt(raw, InfoPattern, j)
    ensures Extract(raw).description == raw[i + 7..]
    ensures Extract(raw).title == if 6 <= i then raw[6..i] else []
  {
    assert IndexOf(raw, InfoPattern) == i;
  }

  /**
   * Without the marker, the description is the text from offset 6 on and
   * the title the same text less its last code unit (slice(6, -1)).
   */
  lemma ExtractWithoutMarker(raw: JsText)
    requires forall j :: !OccursAt(raw, InfoPattern, j)
    ensures Extract(raw).description == if |raw| <= 6 then [] else raw[6..]
    ensures Extract(raw).title == if |raw| <= 7 then [] else raw[6..|raw| - 1]
  {
    assert IndexOf(raw, InfoPattern) == -1;
  }

  /**
   * A well-formed legacy document reads back as written, provided the
   * marker does not occur before the one that ends the title: neither
   * inside `title:` followed by the title, nor overlapping the marker.
   */
  lemma ExtractWellFormed(title: JsText, description: JsText)
    requires forall j :: !OccursAt(TitlePattern + title + InfoPattern[..6], InfoPattern, j)
    ensures Extract(TitlePattern + title + InfoPattern + description)
            == Metadata(title, description, LegacyCategories)
  {
    var raw := TitlePattern + title + InfoPattern + description;
    var q := |TitlePattern| + |title|;
    var head := TitlePattern + title + InfoPattern[..6];
    assert raw[q..q + |InfoPattern|] == InfoPattern;
    assert InfoPattern == InfoPattern[..6] + [InfoPattern[6]];
    assert raw == head + ([InfoPattern[6]] + description);
    assert raw[..|head|] == head;
    forall j | 0 <= j < q
      ensures !OccursAt(raw, InfoPattern, j)
    {
      OccursInPrefix(raw, head, InfoPattern, j);
    }
    ExtractWithMarker(raw, q);
    assert raw[..q] == TitlePattern + title;
    assert raw[|TitlePattern|..q] == (TitlePattern + title)[|TitlePattern|..];
    assert raw[q + |InfoPattern|..] == description;
  }

  /**
   * The converse: when the marker does occur before the one that ends
   * the title, the document does not read back as written (its
   * description comes out longer).
   */
  lemma ExtractWellFormedOnlyIf(title: JsText, description: JsText, j: int)
    requires OccursAt(TitlePattern + title + InfoPattern[..6], InfoPattern, j)
    ensures Extract(TitlePattern + title + InfoPattern + description)
            != Metadata(title, description, LegacyCategories)
  {
    var raw := TitlePattern + title + InfoPattern + description;
    var head := TitlePattern + title + InfoPattern[..6];
    assert InfoPattern == InfoPattern[..6] + [InfoPattern[6]];
    assert raw == head + ([InfoPattern[6]] + description);
    assert raw[..|head|] == head;
    OccursInPrefix(raw, head, InfoPattern, j);
    var i := IndexOf(raw, InfoPattern);
    assert 0 <= i <= j;
    assert |Extract(raw).description| == |raw| - i - |InfoPattern|;
  }

  /**
   * Excluding the marker from the title alone is not enough: the title
   * ":info:x" completes a marker with the colon of `title:`, so its legacy
   * document reads back with an empty title.
   */
  lemma ExtractMarkerInsidePrefix()
    ensures var title := Utf16(":info:x");
            (forall j :: !OccursAt(title, InfoPattern, j))
            && Extract(TitlePattern + title + InfoPattern + Utf16("d")).title == []
  {
    var title := Utf16(":info:x");
    Utf16Bmp(":info:x");
    forall j ensures !OccursAt(title, InfoPattern, j) {
      if 0 <= j && j + |InfoPattern| <= |title| {
        assert j == 0;
        assert title[1] != InfoPattern[1];
      }
    }
    var raw := TitlePattern + title + InfoPattern + Utf16("d");
    Utf16Bmp("d");
    forall j | 0 <= j < 5 ensures !OccursAt(raw, InfoPattern, j) {
      assert raw[j] != ':' as int;
      assert raw[j..j + |InfoPattern|][0] == raw[j];
    }
    forall i | 0 <= i < 7 ensures raw[5..12][i] == InfoPattern[i] {
      if i == 0 {
        assert raw[5] == TitlePattern[5];
      } else {
        assert raw[5 + i] == title[i - 1];
      }
    }
    assert raw[5..12] == InfoPattern;
    ExtractWithMarker(raw, 5);
  }

  /**
   * Offsets count code units: in "title:Go 🚀" without a marker, slice(6, -1)
   * drops only the low half of the rocket's surrogate pair, and the title
   * ends with the lone high surrogate.
   */
  lemma ExtractSplitsSurrogatePair()
    ensures Utf16Char('\U{1F680}') == [0xD83D, 0xDE80]
    ensures var go := ['G' as int, 'o' as int, ' ' as int];
            Extract(TitlePattern + go + Utf16Char('\U{1F680}')).title == go + [0xD83D]
  {
    var v := 0x1F680 - 0x1_0000;
    assert '\U{1F680}' as int == 0x1F680;
    assert v / 0x400 == 0x3D && v % 0x400 == 0x280;
    var go: JsText := ['G' as int, 'o' as int, ' ' as int];
    var tail := go + [0xD83D, 0xDE80];
    var raw := TitlePattern + tail;
    assert TitlePattern + go + Utf16Char('\U{1F680}') == raw;
    assert |raw| == 11;
    forall j ensures !OccursAt(raw, InfoPattern, j) {
      if 0 <= j && j + |InfoPattern| <= |raw| {
        assert raw[j..j + |InfoPattern|][2] == raw[j + 2];
        assert raw[j + 2] != 'i' as int;
      }
    }
    ExtractWithoutMarker(raw);
    assert raw[6..] == tail;
    assert raw[6..10] == tail[..4];
  }
}
