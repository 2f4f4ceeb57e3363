/**
 * The allow-list: configured as one colon-separated string of tweet IDs, then
 * consulted with the decimal rendering of each candidate tweet's ID.
 */
module AllowList {
  import opened Strconv

  const Separator: char := ':'

  /** Go's `strings.Split(s, ":")`: the segments between separators, in order. */
  function Split(s: string): (parts: seq<string>)
    ensures |parts| == multiset(s)[Separator] + 1
    ensures forall i :: 0 <= i < |parts| ==> Separator !in parts[i]
    decreases |s|
  {
    if |s| == 0 then [""]
    else
      var rest := Split(s[1..]);
      assert s == [s[0]] + s[1..];
      if s[0] == Separator then [""] + rest
      else [[s[0]] + rest[0]] + rest[1..]
  }

  /** Go's `strings.Join(parts, ":")`. */
  function Join(parts: seq<string>): string
    decreases |parts|
  {
    if |parts| == 0 then ""
    else if |parts| == 1 then parts[0]
    else parts[0] + [Separator] + Join(parts[1..])
  }

  /** Splitting loses nothing: joining the segments rebuilds the string. */
  lemma {:induction false} JoinSplit(s: string)
    ensures Join(Split(s)) == s
    decreases |s|
  {
    if |s| > 0 {
      var rest := Split(s[1..]);
      JoinSplit(s[1..]);
      if s[0] != Separator && |rest| > 1 {
        assert Join(rest) == rest[0] + [Separator] + Join(rest[1..]);
      }
    }
  }

  /** Splitting `w + s`, where `w` holds no separator, glues `w` onto the first segment of `s`. */
  lemma {:induction false} SplitPrefix(w: string, s: string)
    requires Separator !in w
    ensures Split(w + s) == [w + Split(s)[0]] + Split(s)[1..]
    decreases |w|
  {
    if |w| > 0 {
      var ws := w + s;
      assert ws[0] == w[0] && ws[0] != Separator;
      assert ws[1..] == w[1..] + s;
      SplitPrefix(w[1..], s);
      var rest := Split(ws[1..]);
      assert rest == [w[1..] + Split(s)[0]] + Split(s)[1..];
      assert Split(ws) == [[w[0]] + rest[0]] + rest[1..];
      assert [w[0]] + (w[1..] + Split(s)[0]) == w + Split(s)[0];
    } else {
      assert w + s == s && w + Split(s)[0] == Split(s)[0];
    }
  }

  /** Segments free of separators are recovered exactly by splitting their join. */
  lemma {:induction false} SplitJoin(parts: seq<string>)
    requires |parts| >= 1
    requires forall i :: 0 <= i < |parts| ==> Separator !in parts[i]
    ensures Split(Join(parts)) == parts
    decreases |parts|
  {
    if |parts| == 1 {
      SplitPrefix(parts[0], "");
      assert parts[0] + "" == parts[0];
    } else {
      var tail := Join(parts[1..]);
      SplitJoin(parts[1..]);
      assert Split([Separator] + tail) == [""] + Split(tail);
      SplitPrefix(parts[0], [Separator] + tail);
      assert parts[0] + [Separator] + tail == parts[0] + ([Separator] + tail);
      assert parts[0] + "" == parts[0];
    }
  }

  /** `getWhitelist`: the empty setting is the empty list, anything else is split on ':'. */
  function GetWhitelist(setting: string): (list: seq<string>)
    ensures setting == "" ==> list == []
    ensures setting != "" ==> |list| == multiset(setting)[Separator] + 1
    ensures setting != "" ==> Join(list) == setting
    ensures forall i :: 0 <= i < |list| ==> Separator !in list[i]
  {
    if setting == "" then [] else JoinSplit(setting); Split(setting)
  }

  /** A linear scan that stops at the first entry equal to `key`. */
  function Contains(list: seq<string>, key: string): (found: bool)
    ensures found <==> key in list
    decreases |list|
  {
    if |list| == 0 then false
    else if list[0] == key then true
    else Contains(list[1..], key)
  }

  /** `isWhitelisted`: the ID's decimal rendering equals some entry exactly. */
  function IsWhitelisted(whitelist: seq<string>, id: Int64): (listed: bool)
    ensures listed <==> exists i :: 0 <= i < |whitelist| && whitelist[i] == FormatInt(id)
  {
    Contains(whitelist, FormatInt(id))
  }

  /** An entry protects exactly one ID: the one it renders; neighbours such as ...568 for ...567 are not matched. */
  lemma EntryMatchesOnlyItsId(entry: Int64, id: Int64)
    ensures IsWhitelisted([FormatInt(entry)], id) <==> id == entry
  {
    FormatIntInjective(entry, id);
  }

  /**
   * No normalisation: an entry can match some ID exactly when it is already in
   * canonical form and within the int64 range, so "007", "+7" or " 7" match nothing.
   */
  lemma EntryMatchesSomeId(entry: string)
    ensures (exists id: Int64 :: IsWhitelisted([entry], id))
        <==> IsCanonicalDecimal(entry) && MinInt64 <= DecimalToInt(entry) <= MaxInt64
  {
    if exists id: Int64 :: IsWhitelisted([entry], id) {
      var id: Int64 :| IsWhitelisted([entry], id);
      assert FormatInt(id) == entry;
      FormatIntRoundTrip(id);
    }
    if IsCanonicalDecimal(entry) && MinInt64 <= DecimalToInt(entry) <= MaxInt64 {
      var id: Int64 := DecimalToInt(entry);
      CanonicalRoundTrip(entry);
      assert IsWhitelisted([entry], id);
    }
  }

  /**
   * End to end: the setting built from the renderings of some IDs protects
   * exactly those IDs; with no IDs the setting is empty and protects nothing.
   */
  lemma SettingProtectsExactlyListedIds(ids: seq<Int64>, id: Int64)
    ensures IsWhitelisted(GetWhitelist(Join(seq(|ids|, i requires 0 <= i < |ids| => FormatInt(ids[i])))), id)
        <==> id in ids
  {
    var entries := seq(|ids|, i requires 0 <= i < |ids| => FormatInt(ids[i]));
    if |ids| == 0 {
      return;
    }
    assert forall i :: 0 <= i < |entries| ==> Separator !in entries[i];
    SplitJoin(entries);
    assert Join(entries) != "" by {
      if Join(entries) == "" {
        JoinSplit("");
      }
    }
    if id in ids {
      var i :| 0 <= i < |ids| && ids[i] == id;
      assert entries[i] == FormatInt(id);
    }
    if IsWhitelisted(GetWhitelist(Join(entries)), id) {
      var i :| 0 <= i < |entries| && entries[i] == FormatInt(id);
      FormatIntInjective(ids[i], id);
    }
  }

  /** The two-entry setting of `TestGetWhitelistTwoElements` in main_test.go splits into its two entries. */
  lemma TwoEntrySetting()
    ensures GetWhitelist("23456ytewrtytr43456:345tgfdstyuio8765rf") == ["23456ytewrtytr43456", "345tgfdstyuio8765rf"]
  {
    var parts := ["23456ytewrtytr43456", "345tgfdstyuio8765rf"];
    assert Join(parts) == "23456ytewrtytr43456:345tgfdstyuio8765rf";
    SplitJoin(parts);
  }
}
