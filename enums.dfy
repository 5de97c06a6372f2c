/**
 * The known container formats of src/enums.rs and `KnownTypes::maybe_from`,
 * the case-insensitive lookup of a format name such as a MIME type or a file
 * extension: the first entry of the table ("webm", "mp4", "ogg") that occurs
 * anywhere in the lowercased name decides the format.
 *
 * Lowercasing is modelled for ASCII letters only.
 */
module Enums {
  import opened Common

  datatype KnownTypes = WebM | MP4 | Ogg

  /** The table of `maybe_from`, in the order it is searched. */
  const Formats: seq<(string, KnownTypes)> := [("webm", WebM), ("mp4", MP4), ("ogg", Ogg)]

  predicate IsUpper(c: char)
  {
    'A' <= c <= 'Z'
  }

  /** ASCII lowering of one character; every other character is kept. */
  function ToLower(c: char): (r: char)
    ensures !IsUpper(r)
    ensures !IsUpper(c) ==> r == c
    ensures IsUpper(c) ==> r as int == c as int + 32
  {
    if IsUpper(c) then (c as int + 32) as char else c
  }

  /** ASCII raising of one character, used to state case-insensitivity. */
  function ToUpper(c: char): (r: char)
    ensures ToLower(r) == ToLower(c)
  {
    if 'a' <= c <= 'z' then (c as int - 32) as char else c
  }

  /** `str::to_lowercase`, restricted to ASCII. */
  function Lowercase(s: string): (r: string)
    ensures |r| == |s|
    ensures forall k :: 0 <= k < |s| ==> r[k] == ToLower(s[k])
  {
    if s == [] then [] else [ToLower(s[0])] + Lowercase(s[1..])
  }

  function Uppercase(s: string): (r: string)
    ensures |r| == |s|
    ensures forall k :: 0 <= k < |s| ==> r[k] == ToUpper(s[k])
  {
    if s == [] then [] else [ToUpper(s[0])] + Uppercase(s[1..])
  }

  /** `key` occurs in `s` at position k. */
  ghost predicate OccursAt(s: string, key: string, k: int)
  {
    0 <= k <= |s| - |key| && s[k..k + |key|] == key
  }

  /** `str::contains`: whether `key` occurs anywhere in `s`. */
  function Contains(s: string, key: string): (r: bool)
    ensures r <==> exists k :: OccursAt(s, key, k)
    decreases |s|
  {
    if |key| > |s| then
      false
    else if s[..|key|] == key then
      assert OccursAt(s, key, 0);
      true
    else
      ContainsShift(s, key);
      Contains(s[1..], key)
  }

  /** An occurrence past the first position is an occurrence in the tail. */
  lemma ContainsShift(s: string, key: string)
    requires |key| <= |s| && s[..|key|] != key
    ensures (exists k :: OccursAt(s, key, k)) <==> (exists k :: OccursAt(s[1..], key, k))
  {
    if k :| OccursAt(s, key, k) {
      assert k != 0;
      assert s[1..][k - 1..k - 1 + |key|] == s[k..k + |key|];
      assert OccursAt(s[1..], key, k - 1);
    }
    if k :| OccursAt(s[1..], key, k) {
      assert s[1..][k..k + |key|] == s[k + 1..k + 1 + |key|];
      assert OccursAt(s, key, k + 1);
    }
  }

  /** Whether the name of entry k of the table occurs in s. */
  predicate Names(s: string, table: seq<(string, KnownTypes)>, k: int)
  {
    0 <= k < |table| && Contains(s, table[k].0)
  }

  /**
   * The search of `maybe_from` over the table: the format of the first entry
   * whose name occurs in s, or None when no entry's name does.
   */
  function Lookup(s: string, table: seq<(string, KnownTypes)>): (r: Option<KnownTypes>)
    ensures r.None? <==> forall k :: 0 <= k < |table| ==> !Names(s, table, k)
    ensures r.Some? ==> exists k :: Names(s, table, k) && r.value == table[k].1 &&
                                    forall j :: 0 <= j < k ==> !Names(s, table, j)
  {
    if |table| == 0 then
      None
    else if Contains(s, table[0].0) then
      assert Names(s, table, 0);
      Some(table[0].1)
    else
      var r := Lookup(s, table[1..]);
      assert forall k :: 1 <= k < |table| ==> (Names(s, table, k) <==> Names(s, table[1..], k - 1));
      if r.Some? then
        var k :| Names(s, table[1..], k) && r.value == table[1..][k].1 &&
                 forall j :: 0 <= j < k ==> !Names(s, table[1..], j);
        assert Names(s, table, k + 1);
        r
      else
        r
  }

  /**
   * The search over the table, unrolled: "webm" is tried first, then "mp4",
   * then "ogg".
   */
  lemma LookupByTable(l: string)
    ensures Lookup(l, Formats) == if Contains(l, "webm") then Some(WebM)
                                  else if Contains(l, "mp4") then Some(MP4)
                                  else if Contains(l, "ogg") then Some(Ogg)
                                  else None
  {
    var t1, t2 := Formats[1..], Formats[2..];
    assert t1 == [("mp4", MP4), ("ogg", Ogg)] && t1[1..] == t2;
    assert t2 == [("ogg", Ogg)] && t2[1..] == [];
    assert Lookup(l, t2) == if Contains(l, "ogg") then Some(Ogg) else Lookup(l, []);
    assert Lookup(l, t1) == if Contains(l, "mp4") then Some(MP4) else Lookup(l, t2);
  }

  /**
   * `KnownTypes::maybe_from`: on the lowercased name, "webm" wins over the
   * others and "mp4" over "ogg"; None exactly when no name occurs.
   */
  function MaybeFrom(s: string): (r: Option<KnownTypes>)
    ensures var l := Lowercase(s);
            r == if Contains(l, "webm") then Some(WebM)
                 else if Contains(l, "mp4") then Some(MP4)
                 else if Contains(l, "ogg") then Some(Ogg)
                 else None
  {
    LookupByTable(Lowercase(s));
    Lookup(Lowercase(s), Formats)
  }

  lemma {:induction false} LowercaseIdempotent(s: string)
    ensures Lowercase(Lowercase(s)) == Lowercase(s)
  {
    var l := Lowercase(s);
    forall k | 0 <= k < |s| ensures Lowercase(l)[k] == l[k] {
      assert !IsUpper(l[k]);
    }
  }

  lemma {:induction false} LowercaseOfUppercase(s: string)
    ensures Lowercase(Uppercase(s)) == Lowercase(s)
  {
    var u := Uppercase(s);
    forall k | 0 <= k < |s| ensures Lowercase(u)[k] == Lowercase(s)[k] {
      assert ToLower(u[k]) == ToLower(s[k]);
    }
  }

  /** The lookup sees only the lowercased name, so the case of the name does not matter. */
  lemma MaybeFromCaseInsensitive(s: string)
    ensures MaybeFrom(Lowercase(s)) == MaybeFrom(s)
    ensures MaybeFrom(Uppercase(s)) == MaybeFrom(s)
  {
    LowercaseIdempotent(s);
    LowercaseOfUppercase(s);
  }

  /**
   * Names are matched as substrings, not compared whole: anything with "WebM"
   * inside, such as the MIME type "video/WebM", names WebM.
   */
  lemma MaybeFromSubstring(before: string, after: string)
    ensures MaybeFrom(before + "WebM" + after) == Some(WebM)
  {
    var s := before + "WebM" + after;
    var w := Lowercase(s);
    assert w[|before|..|before| + 4] == "webm" by {
      forall k | 0 <= k < 4
        ensures w[|before| + k] == "webm"[k]
      {
        assert s[|before| + k] == "WebM"[k];
      }
    }
    assert OccursAt(w, "webm", |before|);
  }
}
