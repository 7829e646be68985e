/** The in-memory HRX ("human-readable archive") document as the plugin uses
    it: an insertion-ordered map from entry path to entry, plus the boundary
    length of its textual form. The grammar itself (parsing, serialising,
    checking that no content collides with the boundary, parsing a path) lives
    in a foreign library; its verdicts are the functions held by `HrxLib`. */
module Hrx {
  import opened Wcx

  /** A path inside the archive, '/'-separated. */
  type HrxPath = string

  /** What an entry holds: a file with an optional body (absent is distinct
      from empty), or a directory. */
  datatype HrxEntryData = File(body: Option<string>) | Directory

  datatype HrxEntry = HrxEntry(comment: Option<string>, data: HrxEntryData)

  /** Number of bytes the UTF-8 encoding of `c` takes. */
  function CharUtf8Length(c: char): (n: nat)
    ensures 1 <= n <= 4
    ensures n == 1 <==> c as int < 0x80
  {
    if c as int < 0x80 then 1
    else if c as int < 0x800 then 2
    else if c as int < 0x1_0000 then 3
    else 4
  }

  /** Number of bytes of the UTF-8 encoding of `s`: what Rust's `str::len`
      reports. */
  function Utf8Length(s: string): (n: nat)
    ensures |s| <= n <= 4 * |s|
  {
    if s == [] then 0 else CharUtf8Length(s[0]) + Utf8Length(s[1..])
  }

  lemma {:induction false} Utf8LengthAppend(s: string, t: string)
    ensures Utf8Length(s + t) == Utf8Length(s) + Utf8Length(t)
  {
    if s == [] {
      assert s + t == t;
    } else {
      assert (s + t)[0] == s[0];
      assert (s + t)[1..] == s[1..] + t;
      Utf8LengthAppend(s[1..], t);
    }
  }

  /** The text an entry stands for when it is listed or extracted: the body of
      a file, or nothing for a bodiless file and for a directory. */
  function BodyText(d: HrxEntryData): (t: string)
    ensures d.File? && d.body.Some? ==> t == d.body.value
    ensures d.Directory? || d.body.None? ==> t == ""
  {
    match d
    case File(Some(b)) => b
    case File(None) => ""
    case Directory => ""
  }

  /** Byte length reported for an entry: zero for a directory or a bodiless
      file. */
  function BodyLength(d: HrxEntryData): (n: nat)
    ensures d.Directory? ==> n == 0
    ensures n == 0 <==> BodyText(d) == ""
  {
    Utf8Length(BodyText(d))
  }

  ghost predicate Distinct<T>(s: seq<T>) {
    forall i, j | 0 <= i < j < |s| :: s[i] != s[j]
  }

  /** An archive: `keys` gives the insertion order of the paths held in
      `entries`. */
  datatype Archive = Archive(keys: seq<HrxPath>, entries: map<HrxPath, HrxEntry>, boundaryLength: nat) {

    /** Every key once, the order covering exactly the map's keys, and a
        positive boundary length (`NonZeroUsize` in the library). */
    ghost predicate Valid() {
      && boundaryLength >= 1
      && Distinct(keys)
      && (forall k :: k in entries <==> k in keys)
    }

    /** The ordered (path, entry) pairs, as iteration yields them. */
    function Listing(): (l: seq<(HrxPath, HrxEntry)>)
      requires Valid()
      ensures |l| == |keys|
      ensures forall i | 0 <= i < |l| :: l[i] == (keys[i], entries[keys[i]])
    {
      seq(|keys|, i requires 0 <= i < |keys| => (keys[i], entries[keys[i]]))
    }
  }

  /** `HrxArchive::new`: an archive with no entries. */
  function NewArchive(boundaryLength: nat): (a: Archive)
    requires boundaryLength >= 1
    ensures a.Valid() && a.keys == [] && a.Listing() == []
    ensures a.boundaryLength == boundaryLength
  {
    Archive([], map[], boundaryLength)
  }

  /** The linked-hash-map entry API used by packing: an existing key keeps its
      position and comment and gets the new data; a new key goes to the end
      with no comment. Nothing else changes, and a well-formed archive stays
      well formed. */
  function Install(a: Archive, key: HrxPath, data: HrxEntryData): (r: Archive)
    ensures a.Valid() ==> r.Valid()
    ensures r.boundaryLength == a.boundaryLength
    ensures r.entries.Keys == a.entries.Keys + {key}
    ensures key in a.entries ==> r.keys == a.keys && r.entries[key] == HrxEntry(a.entries[key].comment, data)
    ensures key !in a.entries ==> r.keys == a.keys + [key] && r.entries[key] == HrxEntry(None, data)
    ensures forall k | k in a.entries && k != key :: r.entries[k] == a.entries[k]
  {
    if key in a.entries then
      a.(entries := a.entries[key := a.entries[key].(data := data)])
    else
      a.(keys := a.keys + [key], entries := a.entries[key := HrxEntry(None, data)])
  }

  /** Position of `key` in `keys`, if present. */
  function IndexOf(keys: seq<HrxPath>, key: HrxPath): (r: Option<nat>)
    ensures r.Some? <==> key in keys
    ensures r.Some? ==> r.value < |keys| && keys[r.value] == key && key !in keys[..r.value]
  {
    if keys == [] then None
    else if keys[0] == key then Some(0)
    else match IndexOf(keys[1..], key)
      case None => None
      case Some(i) => assert keys[1..][..i] == keys[1..i + 1]; Some(i + 1)
  }

  /** The order with every occurrence of `key` dropped. */
  function Without(keys: seq<HrxPath>, key: HrxPath): (r: seq<HrxPath>)
    ensures forall k :: k in r <==> k in keys && k != key
    ensures |r| <= |keys|
  {
    if keys == [] then []
    else if keys[0] == key then Without(keys[1..], key)
    else [keys[0]] + Without(keys[1..], key)
  }

  /** Removing a key that occurs once, at position `i`, closes the gap and
      keeps the order of the rest. */
  lemma {:induction false} WithoutAt(keys: seq<HrxPath>, i: nat)
    requires i < |keys| && Distinct(keys)
    ensures Without(keys, keys[i]) == keys[..i] + keys[i + 1..]
  {
    var key := keys[i];
    if i == 0 {
      WithoutAbsent(keys[1..], key);
    } else {
      assert Distinct(keys[1..]);
      WithoutAt(keys[1..], i - 1);
      assert keys[1..][i - 1] == key;
      assert keys[..i] == [keys[0]] + keys[1..][..i - 1];
      assert keys[i + 1..] == keys[1..][i..];
    }
  }

  lemma {:induction false} WithoutAbsent(keys: seq<HrxPath>, key: HrxPath)
    requires key !in keys
    ensures Without(keys, key) == keys
  {
    if keys != [] {
      assert key !in keys[1..];
      WithoutAbsent(keys[1..], key);
    }
  }

  /** Dropping a key from a sequence without repeats leaves one without
      repeats. */
  lemma {:induction false} WithoutDistinct(keys: seq<HrxPath>, key: HrxPath)
    requires Distinct(keys)
    ensures Distinct(Without(keys, key))
  {
    if keys != [] {
      assert Distinct(keys[1..]);
      WithoutDistinct(keys[1..], key);
      if keys[0] != key {
        var w := Without(keys, key);
        assert keys[0] !in keys[1..];
        assert w == [keys[0]] + Without(keys[1..], key);
        forall p, q | 0 <= p < q < |w| ensures w[p] != w[q] {
          if p == 0 {
            assert w[q] in Without(keys[1..], key);
          } else {
            assert w[p] == Without(keys[1..], key)[p - 1] && w[q] == Without(keys[1..], key)[q - 1];
          }
        }
      }
    }
  }

  /** `LinkedHashMap::remove`: the removed entry, and the archive without it;
      a missing key leaves the archive as it was. */
  function Remove(a: Archive, key: HrxPath): (r: (Archive, Option<HrxEntry>))
    requires a.Valid()
    ensures r.0.Valid() && r.0.boundaryLength == a.boundaryLength
    ensures key !in a.entries ==> r == (a, None)
    ensures key in a.entries ==> r.1 == Some(a.entries[key])
    ensures r.0.entries == a.entries - {key}
    ensures r.0.keys == Without(a.keys, key)
    ensures key in a.entries ==> |r.0.keys| == |a.keys| - 1
  {
    WithoutDistinct(a.keys, key);
    if key in a.entries then
      WithoutAt(a.keys, IndexOf(a.keys, key).value);
      (a.(keys := Without(a.keys, key), entries := a.entries - {key}), Some(a.entries[key]))
    else
      WithoutAbsent(a.keys, key);
      assert a.entries - {key} == a.entries;
      (a, None)
  }

  /** The sequence with position `i` dropped, read at `j`. */
  lemma DropIndex<T>(s: seq<T>, i: nat, j: nat)
    requires i < |s| && j < |s| - 1
    ensures (s[..i] + s[i + 1..])[j] == s[if j < i then j else j + 1]
  {
  }

  /** Installing over an existing path rewrites that one pair of the listing
      in place; installing a new path appends one pair. */
  lemma InstallListing(a: Archive, key: HrxPath, data: HrxEntryData)
    requires a.Valid()
    ensures key in a.entries ==>
      exists i | 0 <= i < |a.keys| ::
        (a.keys[i] == key &&
         Install(a, key, data).Listing() == a.Listing()[i := (key, HrxEntry(a.entries[key].comment, data))])
    ensures key !in a.entries ==>
      Install(a, key, data).Listing() == a.Listing() + [(key, HrxEntry(None, data))]
  {
    var r := Install(a, key, data);
    if key in a.entries {
      var i := IndexOf(a.keys, key).value;
      assert r.Listing() == a.Listing()[i := (key, HrxEntry(a.entries[key].comment, data))];
    } else {
      assert r.Listing() == a.Listing() + [(key, HrxEntry(None, data))];
    }
  }

  /** Removing a present path drops exactly its pair from the listing. */
  lemma RemoveListing(a: Archive, key: HrxPath)
    requires a.Valid() && key in a.entries
    ensures exists i | 0 <= i < |a.keys| ::
      (a.keys[i] == key && Remove(a, key).0.Listing() == a.Listing()[..i] + a.Listing()[i + 1..])
  {
    var i := IndexOf(a.keys, key).value;
    var l, rl := a.Listing(), Remove(a, key).0.Listing();
    assert |rl| == |l| - 1;
    forall j | 0 <= j < |rl| ensures rl[j] == (l[..i] + l[i + 1..])[j] {
      RemoveListingAt(a, i, j);
    }
    assert rl == l[..i] + l[i + 1..];
  }

  /** Position `j` of the listing after removing the key at position `i`. */
  lemma RemoveListingAt(a: Archive, i: nat, j: nat)
    requires a.Valid() && i < |a.keys| && j < |a.keys| - 1
    ensures Remove(a, a.keys[i]).0.Listing()[j] == (a.Listing()[..i] + a.Listing()[i + 1..])[j]
  {
    var r := Remove(a, a.keys[i]).0;
    WithoutAt(a.keys, i);
    var j' := if j < i then j else j + 1;
    DropIndex(a.keys, i, j);
    DropIndex(a.Listing(), i, j);
    assert r.keys[j] == a.keys[j'] && j' != i;
  }

  /** The foreign grammar library, reduced to the verdicts the plugin relies
      on: `parse` is `HrxArchive::from_str`, `isPath` tells whether
      `HrxPath::from_str` accepts a string, and `boundaryOk(entries, n)` tells
      whether entries of that content can be written with boundary length `n`
      (`validate_content` for the current length, `set_boundary_length` for a
      new one). */
  datatype HrxLib = HrxLib(
    parse: string -> Option<Archive>,
    isPath: string -> bool,
    boundaryOk: (map<HrxPath, HrxEntry>, nat) -> bool)

  /** Some boundary length above `b` is accepted for content `es`. */
  ghost predicate AcceptsAbove(lib: HrxLib, es: map<HrxPath, HrxEntry>, b: nat) {
    exists n :: n > b && lib.boundaryOk(es, n)
  }

  /** What the plugin needs from the library: parsed archives are well formed,
      and for any content a longer boundary is eventually accepted (content is
      finite, the boundary unbounded). */
  ghost predicate WellBehaved(lib: HrxLib) {
    && (forall s :: lib.parse(s).Some? ==> lib.parse(s).value.Valid())
    && (forall es, b :: AcceptsAbove(lib, es, b))
  }
}
