/** The test servers' text form of a metadata hash: [key]:[value],[key]:[value]. */
module MetadataText {
  import opened Wrappers

  /** A Ruby hash: entries in insertion order, no key twice. */
  type Hash = seq<(string, string)>

  const COMMA := ","
  const SEPARATOR := "]:["

  // ---- Splitting as Ruby does it ----

  predicate Contains(s: string, part: string) {
    part <= s || (s != "" && Contains(s[1..], part))
  }

  /** All pieces between separators, leftmost first. */
  function Pieces(s: string, sep: string): (r: seq<string>)
    requires sep != ""
    ensures r != []
  {
    if |s| < |sep| then [s]
    else if s[..|sep|] == sep then [""] + Pieces(s[|sep|..], sep)
    else
      var rest := Pieces(s[1..], sep);
      [[s[0]] + rest[0]] + rest[1..]
  }

  function DropTrailingEmpty(pieces: seq<string>): seq<string> {
    if pieces == [] || pieces[|pieces| - 1] != "" then pieces else DropTrailingEmpty(pieces[..|pieces| - 1])
  }

  /** String#split: trailing empty pieces do not count. */
  function Split(s: string, sep: string): seq<string>
    requires sep != ""
  {
    DropTrailingEmpty(Pieces(s, sep))
  }

  // ---- Printer and parser ----

  function Print(entry: (string, string)): string {
    "[" + entry.0 + "]:[" + entry.1 + "]"
  }

  function Join(parts: seq<string>): string {
    if parts == [] then "" else if |parts| == 1 then parts[0] else parts[0] + COMMA + Join(parts[1..])
  }

  function MapToString(m: Hash): string {
    Join(Prints(m))
  }

  function DeletePrefix(s: string): string {
    if s != "" && s[0] == '[' then s[1..] else s
  }

  function DeleteSuffix(s: string): string {
    if s != "" && s[|s| - 1] == ']' then s[..|s| - 1] else s
  }

  /** hash[key] = value: overwrite in place, or append. */
  function Upsert(m: Hash, key: string, value: string): Hash {
    if m == [] then [(key, value)]
    else if m[0].0 == key then [(key, value)] + m[1..]
    else [m[0]] + Upsert(m[1..], key, value)
  }

  datatype ParseError = Malformed(entry: string)

  function ParseEntry(entry: string): Result<(string, string), ParseError> {
    var parts := Split(entry, SEPARATOR);
    if |parts| == 2 then Ok((DeletePrefix(parts[0]), DeleteSuffix(parts[1]))) else Err(Malformed(entry))
  }

  /** The hash of the entries, later ones overwriting earlier ones; the first malformed one raises. */
  function ParseEntries(entries: seq<string>): Result<Hash, ParseError> {
    if entries == [] then
      Ok([])
    else
      var m :- ParseEntries(entries[..|entries| - 1]);
      var e :- ParseEntry(entries[|entries| - 1]);
      Ok(Upsert(m, e.0, e.1))
  }

  method StringToMap(s: string) returns (r: Result<Hash, ParseError>)
    ensures r == Parse(s)
  {
    if s == "" {
      return Ok([]);
    }
    var metadata: Hash := [];
    var entries := Split(s, COMMA);
    for i := 0 to |entries|
      invariant ParseEntries(entries[..i]) == Ok(metadata)
    {
      assert entries[..i + 1][..i] == entries[..i];
      var parts := Split(entries[i], SEPARATOR);
      if |parts| != 2 {
        FirstErrorStays(entries, i + 1);
        return Err(Malformed(entries[i]));
      }
      metadata := Upsert(metadata, DeletePrefix(parts[0]), DeleteSuffix(parts[1]));
    }
    assert entries[..|entries|] == entries;
    return Ok(metadata);
  }

  lemma {:induction false} FirstErrorStays(entries: seq<string>, i: nat)
    requires i <= |entries| && ParseEntries(entries[..i]).Err?
    ensures ParseEntries(entries) == ParseEntries(entries[..i])
    decreases |entries|
  {
    if i == |entries| {
      assert entries[..i] == entries;
    } else {
      var init := entries[..|entries| - 1];
      assert init[..i] == entries[..i];
      FirstErrorStays(init, i);
    }
  }

  // ---- The round trip ----

  predicate CleanText(s: string) {
    !Contains(s, COMMA) && !Contains(s, SEPARATOR)
  }

  predicate Clean(m: Hash) {
    forall i :: 0 <= i < |m| ==> CleanText(m[i].0) && CleanText(m[i].1)
  }

  predicate IsHash(m: Hash) {
    forall i, j :: 0 <= i < j < |m| ==> m[i].0 != m[j].0
  }

  lemma {:induction false} ContainsInFront(a: string, b: string, part: string)
    ensures Contains(a, part) ==> Contains(a + b, part)
    decreases |a|
  {
    if a != "" {
      assert (a + b)[1..] == a[1..] + b;
      ContainsInFront(a[1..], b, part);
    }
  }

  lemma {:induction false} ContainsBehind(a: string, b: string, part: string)
    ensures Contains(b, part) ==> Contains(a + b, part)
    decreases |a|
  {
    if a == "" {
      assert a + b == b;
    } else {
      assert (a + b)[1..] == a[1..] + b;
      ContainsBehind(a[1..], b, part);
    }
  }

  lemma {:induction false} TooShort(s: string, part: string)
    requires |s| < |part|
    ensures !Contains(s, part)
    decreases |s|
  {
    if s != "" {
      TooShort(s[1..], part);
    }
  }

  /** Pieces never hold the separator, and hold nothing the whole does not. */
  lemma {:induction false} PiecesAreFree(s: string, sep: string, k: nat, other: string)
    requires sep != "" && k < |Pieces(s, sep)|
    ensures Pieces(s, sep)[0] <= s
    ensures !Contains(Pieces(s, sep)[k], sep)
    ensures !Contains(s, other) ==> !Contains(Pieces(s, sep)[k], other)
    decreases |s|
  {
    if |s| < |sep| {
      TooShort(s, sep);
    } else if s[..|sep|] == sep {
      if k > 0 {
        PiecesAreFree(s[|sep|..], sep, k - 1, other);
        assert s == s[..|sep|] + s[|sep|..];
        ContainsBehind(s[..|sep|], s[|sep|..], other);
      }
    } else {
      var rest, first := Pieces(s[1..], sep), Pieces(s, sep)[0];
      PiecesAreFree(s[1..], sep, if k > 0 then k else 0, other);
      assert first == [s[0]] + rest[0] && first[1..] == rest[0] && first <= s;
    }
  }

  /** A string without the separator is one piece. */
  lemma {:induction false} FreeIsOnePiece(s: string, sep: string)
    requires sep != "" && !Contains(s, sep)
    ensures Pieces(s, sep) == [s]
    decreases |s|
  {
    if |s| >= |sep| {
      FreeIsOnePiece(s[1..], sep);
      assert [s[0]] + s[1..] == s;
    }
  }

  /** No separator starts inside `a` when `b` follows it. */
  predicate NoStart(a: string, b: string, sep: string) {
    a != "" ==> !(sep <= a + b) && NoStart(a[1..], b, sep)
  }

  /** Then `a` comes off the front as a piece of its own. */
  lemma {:induction false} PieceComesOff(a: string, sep: string, b: string)
    requires sep != "" && NoStart(a, sep + b, sep)
    ensures Pieces(a + (sep + b), sep) == [a] + Pieces(b, sep)
    decreases |a|
  {
    var s := a + (sep + b);
    if a == "" {
      assert s == sep + b && s[..|sep|] == sep && s[|sep|..] == b;
    } else {
      assert s[1..] == a[1..] + (sep + b);
      PieceComesOff(a[1..], sep, b);
      assert s[..|sep|] != sep;
      assert [a[0]] + a[1..] == a;
    }
  }

  lemma {:induction false} NoCommaStarts(a: string, b: string)
    requires !Contains(a, COMMA)
    ensures NoStart(a, b, COMMA)
    decreases |a|
  {
    if a != "" {
      NoCommaStarts(a[1..], b);
      assert (a + b)[0] == a[0];
      assert COMMA <= a <==> a[0] == ',';
    }
  }

  /** "]:[" cannot overlap a "]:[" that follows it. */
  lemma {:induction false} NoSeparatorStarts(a: string, b: string)
    requires !Contains(a, SEPARATOR)
    ensures NoStart(a, SEPARATOR + b, SEPARATOR)
    decreases |a|
  {
    if a != "" {
      NoSeparatorStarts(a[1..], b);
      var s := a + (SEPARATOR + b);
      if |a| >= 3 {
        assert s[..3] == a[..3];
      } else if |a| == 2 {
        assert s[2] == ']';
      } else {
        assert s[1] == ']';
      }
    }
  }

  lemma {:induction false} BracketAddsNoSeparator(v: string)
    requires !Contains(v, SEPARATOR)
    ensures !Contains(v + "]", SEPARATOR)
    decreases |v|
  {
    if v != "" {
      assert (v + "]")[1..] == v[1..] + "]";
      BracketAddsNoSeparator(v[1..]);
      if |v| >= 3 {
        assert (v + "]")[..3] == v[..3];
      } else if |v| == 2 {
        assert (v + "]")[2] == ']';
      }
    }
  }

  lemma OpeningAddsNoSeparator(k: string)
    requires !Contains(k, SEPARATOR)
    ensures !Contains("[" + k, SEPARATOR)
  {
    var a := "[" + k;
    assert a[0] == '[' && a[1..] == k;
  }

  lemma PrintedPieces(entry: (string, string))
    requires CleanText(entry.0) && CleanText(entry.1)
    ensures Pieces(Print(entry), SEPARATOR) == ["[" + entry.0, entry.1 + "]"]
  {
    var a, b := "[" + entry.0, entry.1 + "]";
    assert Print(entry) == a + (SEPARATOR + b);
    OpeningAddsNoSeparator(entry.0);
    NoSeparatorStarts(a, b);
    PieceComesOff(a, SEPARATOR, b);
    BracketAddsNoSeparator(entry.1);
    FreeIsOnePiece(b, SEPARATOR);
  }

  /** A clean entry is read back from its printed form. */
  lemma ParsePrinted(entry: (string, string))
    requires CleanText(entry.0) && CleanText(entry.1)
    ensures ParseEntry(Print(entry)) == Ok(entry)
  {
    PrintedPieces(entry);
    var a, b := "[" + entry.0, entry.1 + "]";
    assert [a, b][1] == b && b[|b| - 1] == ']';
    assert a[1..] == entry.0 && b[..|b| - 1] == entry.1;
  }

  /** A comma-free, non-empty list of entries is split back from its joined form. */
  lemma {:induction false} SplitJoined(parts: seq<string>)
    requires parts != [] && forall i :: 0 <= i < |parts| ==> !Contains(parts[i], COMMA)
    ensures Pieces(Join(parts), COMMA) == parts
    decreases |parts|
  {
    if |parts| == 1 {
      FreeIsOnePiece(parts[0], COMMA);
    } else {
      var rest := Join(parts[1..]);
      NoCommaStarts(parts[0], COMMA + rest);
      PieceComesOff(parts[0], COMMA, rest);
      assert Join(parts) == parts[0] + (COMMA + rest);
      SplitJoined(parts[1..]);
    }
  }

  lemma PrintHasNoComma(entry: (string, string))
    requires CleanText(entry.0) && CleanText(entry.1)
    ensures !Contains(Print(entry), COMMA)
  {
    NoCommaChar('[');
    NoCommaChar(':');
    NoCommaChar(']');
    NoCommaConcat(['['], entry.0);
    NoCommaConcat("[" + entry.0, [']']);
    NoCommaConcat("[" + entry.0 + "]", [':']);
    NoCommaConcat("[" + entry.0 + "]" + ":", ['[']);
    assert "[" + entry.0 + "]" + ":" + "[" == "[" + entry.0 + "]:[";
    NoCommaConcat("[" + entry.0 + "]:[", entry.1);
    NoCommaConcat("[" + entry.0 + "]:[" + entry.1, [']']);
  }

  lemma NoCommaChar(c: char)
    requires c != ','
    ensures !Contains([c], COMMA)
  {
    assert [c][1..] == "";
    TooShort("", COMMA);
    assert COMMA[0] == ',';
  }

  lemma {:induction false} NoCommaConcat(a: string, b: string)
    requires !Contains(a, COMMA)
    ensures !Contains(b, COMMA) ==> !Contains(a + b, COMMA)
    decreases |a|
  {
    if a == "" {
      assert a + b == b;
    } else {
      NoCommaConcat(a[1..], b);
      assert (a + b)[1..] == a[1..] + b;
      assert (a + b)[0] == a[0];
      assert COMMA <= a <==> a[0] == ',';
    }
  }

  function Prints(m: Hash): seq<string> {
    seq(|m|, i requires 0 <= i < |m| => Print(m[i]))
  }

  lemma {:induction false} UpsertNew(m: Hash, key: string, value: string)
    requires forall i :: 0 <= i < |m| ==> m[i].0 != key
    ensures Upsert(m, key, value) == m + [(key, value)]
  {
    if m != [] {
      UpsertNew(m[1..], key, value);
    }
  }

  lemma {:induction false} ParsePrints(m: Hash)
    requires IsHash(m) && Clean(m)
    ensures ParseEntries(Prints(m)) == Ok(m)
    decreases |m|
  {
    if m != [] {
      var n := |m| - 1;
      PrintsStep(m);
      ParsePrints(m[..n]);
      ParsePrinted(m[n]);
      UpsertNew(m[..n], m[n].0, m[n].1);
    }
  }

  lemma PrintsStep(m: Hash)
    requires m != []
    ensures var n := |m| - 1;
            && Prints(m)[..n] == Prints(m[..n]) && Prints(m)[n] == Print(m[n])
            && m == m[..n] + [(m[n].0, m[n].1)]
  {
  }

  // Whatever is parsed is clean.

  lemma DeletingKeepsFree(s: string, part: string)
    requires !Contains(s, part)
    ensures !Contains(DeletePrefix(s), part) && !Contains(DeleteSuffix(s), part)
  {
    if s != "" {
      var n := |s| - 1;
      assert s == s[..1] + s[1..] && s == s[..n] + s[n..];
      ContainsBehind(s[..1], s[1..], part);
      ContainsInFront(s[..n], s[n..], part);
    }
  }

  lemma {:induction false} DropTrailingIsPrefix(pieces: seq<string>)
    ensures DropTrailingEmpty(pieces) <= pieces
    ensures pieces != [] && pieces[|pieces| - 1] != "" ==> DropTrailingEmpty(pieces) == pieces
    decreases |pieces|
  {
    if pieces != [] && pieces[|pieces| - 1] == "" {
      DropTrailingIsPrefix(pieces[..|pieces| - 1]);
    }
  }

  lemma SplitIsFree(s: string, sep: string, other: string)
    requires sep != "" && !Contains(s, other)
    ensures forall k :: 0 <= k < |Split(s, sep)| ==> !Contains(Split(s, sep)[k], sep) && !Contains(Split(s, sep)[k], other)
  {
    DropTrailingIsPrefix(Pieces(s, sep));
    forall k | 0 <= k < |Split(s, sep)|
      ensures !Contains(Split(s, sep)[k], sep) && !Contains(Split(s, sep)[k], other)
    {
      PiecesAreFree(s, sep, k, other);
    }
  }

  lemma ParsedEntryIsClean(entry: string)
    requires !Contains(entry, COMMA) && ParseEntry(entry).Ok?
    ensures CleanText(ParseEntry(entry).value.0) && CleanText(ParseEntry(entry).value.1)
  {
    var parts := Split(entry, SEPARATOR);
    SplitIsFree(entry, SEPARATOR, COMMA);
    DeletingKeepsFree(parts[0], SEPARATOR);
    DeletingKeepsFree(parts[0], COMMA);
    DeletingKeepsFree(parts[1], SEPARATOR);
    DeletingKeepsFree(parts[1], COMMA);
  }

  lemma {:induction false} UpsertKeepsClean(m: Hash, key: string, value: string)
    requires Clean(m) && CleanText(key) && CleanText(value)
    ensures Clean(Upsert(m, key, value))
  {
    if m != [] && m[0].0 != key {
      UpsertKeepsClean(m[1..], key, value);
    }
  }

  lemma {:induction false} ParsedIsClean(entries: seq<string>)
    requires forall k :: 0 <= k < |entries| ==> !Contains(entries[k], COMMA)
    requires ParseEntries(entries).Ok?
    ensures Clean(ParseEntries(entries).value)
    decreases |entries|
  {
    if entries != [] {
      var n := |entries| - 1;
      ParsedIsClean(entries[..n]);
      ParsedEntryIsClean(entries[n]);
      var e := ParseEntry(entries[n]).value;
      UpsertKeepsClean(ParseEntries(entries[..n]).value, e.0, e.1);
    }
  }

  /** What string_to_map computes. */
  function Parse(s: string): Result<Hash, ParseError> {
    ParseEntries(Split(s, COMMA))
  }

  /** Printer and parser undo each other exactly on the hashes whose keys and values contain
      neither a comma nor the separator. */
  lemma PrintParse(m: Hash)
    requires IsHash(m)
    ensures Parse(MapToString(m)) == Ok(m) <==> Clean(m)
  {
    var s := MapToString(m);
    if Clean(m) {
      if m != [] {
        forall i | 0 <= i < |m|
          ensures !Contains(Prints(m)[i], COMMA)
        {
          PrintHasNoComma(m[i]);
        }
        SplitJoined(Prints(m));
        DropTrailingIsPrefix(Prints(m));
      }
      ParsePrints(m);
    }
    if Parse(s) == Ok(m) {
      DropTrailingIsPrefix(Pieces(s, COMMA));
      forall k | 0 <= k < |Split(s, COMMA)|
        ensures !Contains(Split(s, COMMA)[k], COMMA)
      {
        PiecesAreFree(s, COMMA, k, COMMA);
      }
      ParsedIsClean(Split(s, COMMA));
    }
  }

  // ---- What the text means, entry by entry ----

  /** The printed form, character by character: a comma goes between entries. */
  lemma {:induction false} PrintsLiterally(m: Hash, key: string, value: string)
    ensures MapToString([]) == ""
    ensures MapToString(m + [(key, value)]) ==
            (if m == [] then "" else MapToString(m) + ",") + "[" + key + "]:[" + value + "]"
    decreases |m|
  {
    var all := m + [(key, value)];
    if m == [] {
      assert Prints(all) == [Print((key, value))];
    } else {
      PrintsLiterally(m[1..], key, value);
      assert all[1..] == m[1..] + [(key, value)];
      assert Prints(all)[1..] == Prints(all[1..]) && Prints(m)[1..] == Prints(m[1..]);
      assert Prints(all)[0] == Prints(m)[0] == Print(m[0]);
      assert |m| == 1 ==> m[1..] == [];
    }
  }

  lemma {:induction false} PiecesJoinBack(s: string)
    ensures Join(Pieces(s, COMMA)) == s
    decreases |s|
  {
    if s != "" {
      PiecesJoinBack(s[1..]);
      assert s == [s[0]] + s[1..];
      if s[..1] == COMMA {
        assert ([""] + Pieces(s[1..], COMMA))[1..] == Pieces(s[1..], COMMA);
      } else {
        var rest := Pieces(s[1..], COMMA);
        assert ([[s[0]] + rest[0]] + rest[1..])[1..] == rest[1..];
      }
    }
  }

  /** Splitting at commas gives the one list of comma-free pieces that joins back to the whole. */
  lemma PiecesExactly(s: string, parts: seq<string>)
    ensures Pieces(s, COMMA) == parts <==>
            parts != [] && Join(parts) == s && forall i :: 0 <= i < |parts| ==> !Contains(parts[i], COMMA)
  {
    PiecesJoinBack(s);
    forall i | 0 <= i < |Pieces(s, COMMA)|
      ensures !Contains(Pieces(s, COMMA)[i], COMMA)
    {
      PiecesAreFree(s, COMMA, i, COMMA);
    }
    if parts != [] && forall i :: 0 <= i < |parts| ==> !Contains(parts[i], COMMA) {
      SplitJoined(parts);
    }
  }

  /** What a hash holds under a key. */
  function Find(m: Hash, key: string): Option<string> {
    if m == [] then None else if m[0].0 == key then Some(m[0].1) else Find(m[1..], key)
  }

  lemma {:induction false} UpsertSets(m: Hash, key: string, value: string, other: string)
    ensures Find(Upsert(m, key, value), other) == if other == key then Some(value) else Find(m, other)
  {
    if m != [] && m[0].0 != key {
      UpsertSets(m[1..], key, value, other);
    }
  }

  /** The value of the last entry with this key, among entries that all parse. */
  function LastValue(entries: seq<string>, key: string): Option<string> {
    if entries == [] then None
    else
      var e := ParseEntry(entries[|entries| - 1]);
      if e.Ok? && e.value.0 == key then Some(e.value.1) else LastValue(entries[..|entries| - 1], key)
  }

  /** Later entries overwrite earlier ones: under every key the parsed hash holds the value of the
      last entry with that key, and nothing under other keys. */
  lemma {:induction false} LaterOverwrites(entries: seq<string>, key: string)
    requires ParseEntries(entries).Ok?
    ensures Find(ParseEntries(entries).value, key) == LastValue(entries, key)
  {
    if entries != [] {
      var n := |entries| - 1;
      LaterOverwrites(entries[..n], key);
      var e := ParseEntry(entries[n]).value;
      UpsertSets(ParseEntries(entries[..n]).value, e.0, e.1, key);
    }
  }
}
