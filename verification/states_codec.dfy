/** The value of the `States` key: an ordered, comma-separated list of plugin
    paths. `Parse` is the plugin manager's line parser (split on `,`, strip
    each piece, drop the empty ones); `Serialize` is the `", "` join the save
    action writes back. */
module StatesCodec {
  import opened Text

  /** What the parser can produce as one entry: non-empty, free of commas
      and without whitespace at either end. */
  predicate IsEntry(e: string) {
    e != "" && ',' !in e && IsStripped(e)
  }

  predicate WellFormed(xs: seq<string>) {
    forall i :: 0 <= i < |xs| ==> IsEntry(xs[i])
  }

  /** Two lists of entries put together are a list of entries. */
  lemma WellFormedConcat(a: seq<string>, b: seq<string>)
    requires WellFormed(a) && WellFormed(b)
    ensures WellFormed(a + b)
  {
    forall i | 0 <= i < |a + b|
      ensures IsEntry((a + b)[i])
    {
      if i >= |a| {
        assert (a + b)[i] == b[i - |a|];
      }
    }
  }

  /** The comprehension over the split pieces: each piece stripped, the
      empty ones dropped, the others kept in order and with repetitions. */
  function Clean(pieces: seq<string>): (r: seq<string>)
    requires forall i :: 0 <= i < |pieces| ==> ',' !in pieces[i]
    ensures WellFormed(r)
    ensures |r| <= |pieces|
  {
    if |pieces| == 0 then []
    else
      var t := Strip(pieces[0]);
      StripChars(pieces[0], ',');
      (if t == "" then [] else [t]) + Clean(pieces[1..])
  }

  /** The plugin line parser. Every entry it returns is well formed. */
  function Parse(line: string): (r: seq<string>)
    ensures WellFormed(r)
  {
    SplitPieces(line, ',');
    Clean(Split(line, ','))
  }

  /** The line the save action writes: entries joined with `", "`. */
  function Serialize(xs: seq<string>): (r: string)
    ensures xs == [] ==> r == ""
    ensures |xs| == 1 ==> r == xs[0]
    ensures |xs| > 1 ==> xs[0] + ", " <= r
  {
    Join(", ", xs)
  }

  /** The empty line holds no entries. */
  lemma ParseEmpty()
    ensures Parse("") == []
  {
    assert Split("", ',') == [""];
    assert Strip("") == "";
  }

  lemma {:induction false} CleanAppend(a: seq<string>, b: seq<string>)
    requires forall i :: 0 <= i < |a| ==> ',' !in a[i]
    requires forall i :: 0 <= i < |b| ==> ',' !in b[i]
    ensures Clean(a + b) == Clean(a) + Clean(b)
    decreases |a|
  {
    if |a| > 0 {
      assert (a + b)[0] == a[0] && (a + b)[1..] == a[1..] + b;
      CleanAppend(a[1..], b);
    } else {
      assert a + b == b;
    }
  }

  /** Parsing distributes over a comma: the entries of `a + "," + b` are the
      entries of `a` followed by those of `b`. So entries keep their order of
      appearance and repeated entries are all kept. */
  lemma ParseConcat(a: string, b: string)
    ensures Parse(a + "," + b) == Parse(a) + Parse(b)
  {
    assert a + "," + b == a + [','] + b;
    SplitAppend(a, ',', b);
    SplitPieces(a, ',');
    SplitPieces(b, ',');
    CleanAppend(Split(a, ','), Split(b, ','));
  }

  /** A piece without a comma yields its stripped text, or nothing when that is empty. */
  lemma ParseSingle(s: string)
    requires ',' !in s
    ensures Parse(s) == (if Strip(s) == "" then [] else [Strip(s)])
  {
    SplitNoSep(s, ',');
  }

  /** Two entries joined by a bare comma parse as those two entries. */
  lemma ParseTwoEntries(a: string, b: string)
    requires IsEntry(a) && IsEntry(b)
    ensures Parse(a + "," + b) == [a, b]
  {
    ParseConcat(a, b);
    StripFixpoint(a);
    StripFixpoint(b);
    ParseSingle(a);
    ParseSingle(b);
  }

  /** Leading whitespace before the first comma is ignored. */
  lemma ParseLeadingSpace(c: char, s: string)
    requires IsSpace(c)
    ensures Parse([c] + s) == Parse(s)
  {
    var rest := Split(s, ',');
    SplitCons(c, s, ',');
    SplitPieces(s, ',');
    StripLeadingSpace(c, rest[0]);
    CleanSameHead([c] + rest[0], rest[0], rest[1..]);
    assert [rest[0]] + rest[1..] == rest;
  }

  /** Only the stripped text of the first piece matters to `Clean`. */
  lemma CleanSameHead(x: string, y: string, tail: seq<string>)
    requires ',' !in x && ',' !in y
    requires forall i :: 0 <= i < |tail| ==> ',' !in tail[i]
    requires Strip(x) == Strip(y)
    ensures Clean([x] + tail) == Clean([y] + tail)
  {
    assert ([x] + tail)[0] == x && ([x] + tail)[1..] == tail;
    assert ([y] + tail)[0] == y && ([y] + tail)[1..] == tail;
  }

  /** The joined line starts with the first entry, a comma and a space. */
  lemma SerializeCons(xs: seq<string>)
    requires |xs| > 1
    ensures Serialize(xs) == xs[0] + "," + ([' '] + Serialize(xs[1..]))
  {
    var st := Serialize(xs[1..]);
    assert Serialize(xs) == xs[0] + ", " + st;
    assert ", " + st == "," + ([' '] + st);
  }

  lemma {:induction false} SerializeParseWellFormed(xs: seq<string>)
    requires WellFormed(xs)
    ensures Parse(Serialize(xs)) == xs
    decreases |xs|
  {
    if |xs| == 0 {
      ParseEmpty();
    } else {
      var x := xs[0];
      ParseSingle(x);
      StripFixpoint(x);
      if |xs| > 1 {
        var t := xs[1..];
        SerializeParseWellFormed(t);
        var st := Serialize(t);
        SerializeCons(xs);
        ParseConcat(x, [' '] + st);
        ParseLeadingSpace(' ', st);
        assert [x] + t == xs;
      }
    }
  }

  /** Serializing then parsing gives the list back exactly when every entry is
      well formed: the two directions of the codec's round trip. */
  lemma SerializeParse(xs: seq<string>)
    ensures Parse(Serialize(xs)) == xs <==> WellFormed(xs)
  {
    if WellFormed(xs) {
      SerializeParseWellFormed(xs);
    }
  }

  /** The stored list survives a save and a reload: serializing what was
      parsed and parsing again changes nothing, and the empty line parses
      to the empty list. */
  lemma RoundTrip(s: string)
    ensures Parse(Serialize(Parse(s))) == Parse(s)
    ensures Parse("") == []
  {
    SerializeParse(Parse(s));
    ParseEmpty();
  }
}
