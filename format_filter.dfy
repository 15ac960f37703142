/**
 * The format filter of the downloader: from the list of format descriptors that
 * the extraction library reports for a video, keep the mp4 video streams that
 * carry a human-readable note and a height, one per (height, note) pair, first
 * occurrence first, in the order of the input.
 */
module FormatFilter {
  import opened Wrappers

  /** One format descriptor as the extraction library reports it; every field but
      the identifier is a dictionary entry that may be missing. */
  datatype FormatDescriptor = FormatDescriptor(
    formatId: string,
    ext: Option<string>,
    formatNote: Option<string>,
    height: Option<int>,
    vcodec: Option<string>)

  /** The deduplication key: (height, format note). */
  type Key = (int, string)

  /** The characters Python's `str.isspace` accepts, which `str.strip()` removes. */
  predicate IsSpace(c: char)
  {
    ('\t' <= c <= '\r') || ('\U{001C}' <= c <= ' ')
    || c == '\U{0085}' || c == '\U{00A0}' || c == '\U{1680}'
    || ('\U{2000}' <= c <= '\U{200A}') || c == '\U{2028}' || c == '\U{2029}'
    || c == '\U{202F}' || c == '\U{205F}' || c == '\U{3000}'
  }

  /** `s.lstrip()`: drop leading whitespace. */
  function TrimStart(s: string): string
  {
    if s != [] && IsSpace(s[0]) then TrimStart(s[1..]) else s
  }

  /** `s.rstrip()`: drop trailing whitespace. */
  function TrimEnd(s: string): string
  {
    if s != [] && IsSpace(s[|s| - 1]) then TrimEnd(s[..|s| - 1]) else s
  }

  /** `s.strip()`. */
  function Strip(s: string): string
  {
    TrimEnd(TrimStart(s))
  }

  /** `lstrip` keeps a suffix, drops only whitespace, and stops at the first other character. */
  lemma {:induction false} TrimStartSpec(s: string)
    ensures |TrimStart(s)| <= |s| && TrimStart(s) == s[|s| - |TrimStart(s)|..]
    ensures forall i :: 0 <= i < |s| - |TrimStart(s)| ==> IsSpace(s[i])
    ensures TrimStart(s) == [] || !IsSpace(TrimStart(s)[0])
  {
    if s != [] && IsSpace(s[0]) {
      var rest := s[1..];
      TrimStartSpec(rest);
      var t := TrimStart(rest);
      assert TrimStart(s) == t;
      assert rest[|rest| - |t|..] == s[|s| - |t|..];
      forall i | 0 <= i < |s| - |t| ensures IsSpace(s[i]) {
        if i > 0 { assert s[i] == rest[i - 1]; }
      }
    }
  }

  /** `rstrip` keeps a prefix, drops only whitespace, and stops at the last other character. */
  lemma {:induction false} TrimEndSpec(s: string)
    ensures |TrimEnd(s)| <= |s| && TrimEnd(s) == s[..|TrimEnd(s)|]
    ensures forall i :: |TrimEnd(s)| <= i < |s| ==> IsSpace(s[i])
    ensures TrimEnd(s) == [] || !IsSpace(TrimEnd(s)[|TrimEnd(s)| - 1])
  {
    if s != [] && IsSpace(s[|s| - 1]) {
      TrimEndSpec(s[..|s| - 1]);
    }
  }

  /** A string is empty after stripping exactly when all of its characters are whitespace. */
  lemma StripEmptyIff(s: string)
    ensures Strip(s) == [] <==> forall i :: 0 <= i < |s| ==> IsSpace(s[i])
  {
    TrimStartSpec(s);
    TrimEndSpec(TrimStart(s));
  }

  /** Python truthiness of `format_note and format_note.strip()`. */
  predicate NoteIsShown(note: Option<string>)
  {
    note.Some? && note.value != "" && Strip(note.value) != ""
  }

  /** The filter's predicate: an mp4 video stream with a shown note and a truthy height. */
  predicate Qualifies(f: FormatDescriptor)
  {
    f.ext == Some("mp4") && NoteIsShown(f.formatNote)
    && f.height.Some? && f.height.value != 0
    && f.vcodec != Some("none")
  }

  function KeyOf(f: FormatDescriptor): Key
    requires Qualifies(f)
  {
    (f.height.value, f.formatNote.value)
  }

  /** The keys of the qualifying entries of `s`. */
  function Keys(s: seq<FormatDescriptor>): set<Key>
  {
    set x | x in s && Qualifies(x) :: KeyOf(x)
  }

  /** The filter's result on `fs`: the result on all but the last entry, extended by the
      last entry when it qualifies and its key is new. */
  function Filtered(fs: seq<FormatDescriptor>): seq<FormatDescriptor>
  {
    if fs == [] then []
    else
      var prev := Filtered(fs[..|fs| - 1]);
      var f := fs[|fs| - 1];
      if Qualifies(f) && KeyOf(f) !in Keys(prev) then prev + [f] else prev
  }

  lemma KeysAppend(s: seq<FormatDescriptor>, f: FormatDescriptor)
    ensures Keys(s + [f]) == Keys(s) + (if Qualifies(f) then {KeyOf(f)} else {})
  {
    var t := s + [f];
    forall x | x in t ensures x in s || x == f {
      var i :| 0 <= i < |t| && t[i] == x;
      if i < |s| { assert s[i] == x; }
    }
  }

  /** The filtering loop: a `seen` set of keys and an accumulator, walking the input once. */
  method FilterFormats(formats: seq<FormatDescriptor>) returns (filtered: seq<FormatDescriptor>)
    ensures filtered == Filtered(formats)
  {
    var seen: set<Key> := {};
    filtered := [];
    var i := 0;
    while i < |formats|
      invariant 0 <= i <= |formats|
      invariant filtered == Filtered(formats[..i])
      invariant seen == Keys(filtered)
    {
      var f := formats[i];
      assert formats[..i + 1][..i] == formats[..i];
      if f.ext == Some("mp4") && f.formatNote.Some? && f.formatNote.value != ""
        && Strip(f.formatNote.value) != ""
      {
        if f.height.Some? && f.height.value != 0 && f.vcodec != Some("none") {
          var key := (f.height.value, f.formatNote.value);
          if key !in seen {
            KeysAppend(filtered, f);
            seen := seen + {key};
            filtered := filtered + [f];
          }
        }
      }
      i := i + 1;
    }
    assert formats[..i] == formats;
  }

  // ---------------------------------------------------------------------------
  // Properties of the filter

  /** Every kept entry satisfies the predicate. */
  lemma {:induction false} FilteredQualifies(fs: seq<FormatDescriptor>)
    ensures forall k :: 0 <= k < |Filtered(fs)| ==> Qualifies(Filtered(fs)[k])
  {
    if fs != [] {
      FilteredQualifies(fs[..|fs| - 1]);
    }
  }

  /** No two kept entries share a (height, note) key. */
  lemma {:induction false} FilteredKeysDistinct(fs: seq<FormatDescriptor>)
    ensures forall k :: 0 <= k < |Filtered(fs)| ==> Qualifies(Filtered(fs)[k])
    ensures forall j, k :: 0 <= j < k < |Filtered(fs)| ==> KeyOf(Filtered(fs)[j]) != KeyOf(Filtered(fs)[k])
  {
    FilteredQualifies(fs);
    if fs != [] {
      var prev := Filtered(fs[..|fs| - 1]);
      FilteredKeysDistinct(fs[..|fs| - 1]);
      var f := fs[|fs| - 1];
      if Qualifies(f) && KeyOf(f) !in Keys(prev) {
        var r := prev + [f];
        forall j | 0 <= j < |prev| ensures KeyOf(r[j]) != KeyOf(f) {
          assert r[j] == prev[j] && prev[j] in prev;
        }
      }
    }
  }

  /** Completeness: every qualifying input key is represented in the output, and no other. */
  lemma {:induction false} FilteredKeysComplete(fs: seq<FormatDescriptor>)
    ensures Keys(Filtered(fs)) == Keys(fs)
  {
    if fs != [] {
      var init := fs[..|fs| - 1];
      var f := fs[|fs| - 1];
      FilteredKeysComplete(init);
      assert init + [f] == fs;
      KeysAppend(init, f);
      KeysAppend(Filtered(init), f);
    }
  }

  /** The output is empty exactly when no input entry qualifies (an empty input included). */
  lemma {:induction false} FilteredEmptyIff(fs: seq<FormatDescriptor>)
    ensures Filtered(fs) == [] <==> forall k :: 0 <= k < |fs| ==> !Qualifies(fs[k])
  {
    if fs != [] {
      var n := |fs| - 1;
      var init := fs[..n];
      FilteredEmptyIff(init);
      assert forall k :: 0 <= k < n ==> init[k] == fs[k];
      if Filtered(init) == [] {
        assert Keys(Filtered(init)) == {};
      }
    }
  }

  /** Entry `i` of `fs` qualifies and no earlier qualifying entry has its key. */
  predicate IsFirstOccurrence(fs: seq<FormatDescriptor>, i: int)
    requires 0 <= i < |fs|
  {
    Qualifies(fs[i])
    && forall j :: 0 <= j < i && Qualifies(fs[j]) ==> KeyOf(fs[j]) != KeyOf(fs[i])
  }

  /** `r` is `s` read at the strictly increasing positions `idx`. */
  predicate AtIndices(r: seq<FormatDescriptor>, s: seq<FormatDescriptor>, idx: seq<int>)
  {
    |idx| == |r|
    && (forall k :: 0 <= k < |idx| ==> 0 <= idx[k] < |s| && s[idx[k]] == r[k])
    && (forall j, k :: 0 <= j < k < |idx| ==> idx[j] < idx[k])
  }

  /** The input positions the filter keeps. */
  ghost function KeptIndices(fs: seq<FormatDescriptor>): seq<int>
  {
    if fs == [] then []
    else
      var prev := Filtered(fs[..|fs| - 1]);
      var f := fs[|fs| - 1];
      var idx := KeptIndices(fs[..|fs| - 1]);
      if Qualifies(f) && KeyOf(f) !in Keys(prev) then idx + [|fs| - 1] else idx
  }

  /** Whether a position is a first occurrence depends only on the entries up to it. */
  lemma FirstOccurrenceOfPrefix(fs: seq<FormatDescriptor>, n: int, i: int)
    requires 0 <= i < n <= |fs|
    ensures IsFirstOccurrence(fs[..n], i) == IsFirstOccurrence(fs, i)
  {
    assert forall j :: 0 <= j <= i ==> fs[..n][j] == fs[j];
  }

  /** The last entry is a first occurrence exactly when it qualifies with a key unseen before it. */
  lemma LastFirstOccurrence(fs: seq<FormatDescriptor>)
    requires fs != []
    ensures IsFirstOccurrence(fs, |fs| - 1)
        <==> Qualifies(fs[|fs| - 1]) && KeyOf(fs[|fs| - 1]) !in Keys(fs[..|fs| - 1])
  {
    var n := |fs| - 1;
    var init := fs[..n];
    var f := fs[n];
    if Qualifies(f) {
      if KeyOf(f) in Keys(init) {
        var x :| x in init && Qualifies(x) && KeyOf(x) == KeyOf(f);
        var j :| 0 <= j < n && init[j] == x;
        assert fs[j] == x;
      } else {
        forall j | 0 <= j < n && Qualifies(fs[j]) ensures KeyOf(fs[j]) != KeyOf(f) {
          assert fs[j] == init[j] && init[j] in init;
        }
      }
    }
  }

  /** The kept positions are increasing positions of the input, and the output is read there. */
  lemma {:induction false} FilteredAtKeptIndices(fs: seq<FormatDescriptor>)
    ensures AtIndices(Filtered(fs), fs, KeptIndices(fs))
  {
    if fs != [] {
      var n := |fs| - 1;
      var init := fs[..n];
      FilteredAtKeptIndices(init);
      var idx := KeptIndices(init);
      var prev := Filtered(init);
      if Qualifies(fs[n]) && KeyOf(fs[n]) !in Keys(prev) {
        var idx' := idx + [n];
        var r := prev + [fs[n]];
        assert KeptIndices(fs) == idx' && Filtered(fs) == r;
        forall k | 0 <= k < |idx'| ensures 0 <= idx'[k] < |fs| && fs[idx'[k]] == r[k] {
          if k < |idx| { assert fs[idx[k]] == init[idx[k]]; }
        }
      } else {
        assert KeptIndices(fs) == idx && Filtered(fs) == prev;
        forall k | 0 <= k < |idx| ensures fs[idx[k]] == prev[k] {
          assert fs[idx[k]] == init[idx[k]];
        }
      }
    }
  }

  /** A position is kept exactly when it holds the first qualifying occurrence of its key. */
  lemma {:induction false} KeptIndicesAreFirstOccurrences(fs: seq<FormatDescriptor>)
    ensures forall k :: 0 <= k < |KeptIndices(fs)| ==> 0 <= KeptIndices(fs)[k] < |fs|
    ensures forall i :: 0 <= i < |fs| ==> (i in KeptIndices(fs) <==> IsFirstOccurrence(fs, i))
  {
    if fs != [] {
      var n := |fs| - 1;
      var init := fs[..n];
      KeptIndicesAreFirstOccurrences(init);
      FilteredKeysComplete(init);
      LastFirstOccurrence(fs);
      var idx := KeptIndices(init);
      assert n !in idx;
      var keptLast := IsFirstOccurrence(fs, n);
      assert KeptIndices(fs) == if keptLast then idx + [n] else idx;
      forall i | 0 <= i < n ensures i in KeptIndices(fs) <==> IsFirstOccurrence(fs, i) {
        FirstOccurrenceOfPrefix(fs, n, i);
      }
    }
  }

  /** The output is the subsequence of the input at the positions of the first qualifying
      occurrence of each key, and at no other: order is preserved, nothing is invented,
      later duplicates are dropped. */
  lemma FilteredIsFirstOccurrences(fs: seq<FormatDescriptor>)
    ensures AtIndices(Filtered(fs), fs, KeptIndices(fs))
    ensures forall i :: 0 <= i < |fs| ==> (i in KeptIndices(fs) <==> IsFirstOccurrence(fs, i))
  {
    FilteredAtKeptIndices(fs);
    KeptIndicesAreFirstOccurrences(fs);
  }

  // ---------------------------------------------------------------------------
  // Concrete cases

  const HD720 := FormatDescriptor("136", Some("mp4"), Some("HD"), Some(720), Some("h264"))
  const SD480 := FormatDescriptor("135", Some("mp4"), Some("SD"), Some(480), Some("h264"))

  lemma ExampleNotesShown()
    ensures NoteIsShown(Some("HD")) && NoteIsShown(Some("SD"))
  {
    assert !IsSpace('H') && !IsSpace('S') && !IsSpace('D');
    assert TrimStart("HD") == "HD" && TrimStart("SD") == "SD";
  }

  /** Two identical 720p/HD entries and one 480p/SD entry give 720p/HD then 480p/SD. */
  lemma DuplicateDropped()
    ensures Filtered([HD720, HD720, SD480]) == [HD720, SD480]
  {
    ExampleNotesShown();
    assert Qualifies(HD720) && Qualifies(SD480);
    var one, two, three := [HD720], [HD720, HD720], [HD720, HD720, SD480];
    KeysAppend([], HD720);
    assert [] + [HD720] == one;
    assert Keys(one) == {(720, "HD")};
    assert Filtered(one) == one by {
      assert one[..0] == [];
    }
    assert Filtered(two) == one by {
      assert two[..1] == one;
    }
    assert Filtered(three) == one + [SD480] by {
      assert three[..2] == two;
    }
  }

  /** A list in which no entry is mp4 (all webm, say) gives an empty result, not an error. */
  lemma NoMp4GivesEmpty(fs: seq<FormatDescriptor>)
    requires forall k :: 0 <= k < |fs| ==> fs[k].ext != Some("mp4")
    ensures Filtered(fs) == []
  {
    FilteredEmptyIff(fs);
  }
}
