/** Parsing the lines of one file's unified diff into the key/value pairs
    that were added (`+` lines) or removed (`-` lines). */
module DiffLines {
  import opened Outcomes
  import opened JavaText

  /** A resource bundle's entries, as Java's `Properties`/`Map<String, String>`. */
  type Props = map<string, string>

  /** Which side of the diff one parse reads. */
  datatype Polarity = Addition | Deletion {
    /** The marker character of the lines read. */
    function Marker(): char {
      if Addition? then '+' else '-'
    }

    /** The file-header line prefix of that side. */
    function Header(): string {
      [Marker(), Marker(), Marker()]
    }
  }

  /** Parsing stops at a selected line whose key/value split has no piece:
      `kv[0]` is out of bounds and the exception aborts the whole run. */
  datatype ParseError = NoKeyValue(line: string)

  /** `line.substring(1).trim()`: the text after the marker. */
  function Remainder(line: string): string
    requires line != []
  {
    Trim(line[1..])
  }

  /** First filter: the line is not empty and has text after its marker. */
  predicate HasContent(line: string) {
    line != [] && Remainder(line) != []
  }

  /** `notComment`: the text after the marker does not start with `#`. */
  predicate NotComment(line: string)
    requires line != []
  {
    !StartsWith(Remainder(line), "#")
  }

  /** The four stream filters of `extractAdditions` / `extractDeletions`;
      the last, `startsWith("+")` (or `"-"`), is a test of the first
      character of a line already known to be non-empty. */
  predicate Selected(line: string, p: Polarity) {
    && HasContent(line)
    && !StartsWith(line, p.Header())
    && NotComment(line)
    && line[0] == p.Marker()
  }

  /** `toKeyValue` followed by the entry mapping
      `(kv[0], kv.length == 2 ? kv[1] : "")`; `None` when the split has no
      piece to index. */
  function KeyValue(text: string): Option<(string, string)> {
    var kv := Split(text, '=');
    if kv == [] then None else Some((kv[0], if |kv| == 2 then kv[1] else ""))
  }

  /** The entry a line contributes. */
  function Parse(line: string): Option<(string, string)>
    requires line != []
  {
    KeyValue(Remainder(line))
  }

  /** `extractAdditions` (Addition) and `extractDeletions` (Deletion): the
      selected lines' entries collected in order, a later duplicate key
      replacing the earlier value. */
  function Extract(lines: seq<string>, p: Polarity): Result<Props, ParseError> {
    if lines == [] then Success(map[])
    else
      var before :- Extract(lines[..|lines| - 1], p);
      var line := lines[|lines| - 1];
      if !Selected(line, p) then Success(before)
      else
        match Parse(line)
        case None => Failure(NoKeyValue(line))
        case Some(kv) => Success(before[kv.0 := kv.1])
  }

  // ---------------------------------------------------------------------------
  // The key/value split, stated without `split`
  // ---------------------------------------------------------------------------

  /** Reference reading of the split: drop the trailing `=` characters; if
      nothing is left there is no entry; the key is the text before the first
      `=`, and the value is the text after the `=` when exactly one is left,
      otherwise empty. */
  function KeyValueSpec(text: string): Option<(string, string)> {
    var t := StripTrailing(text, '=');
    if t == [] then None
    else
      Some((if IndexOf(t, '=') >= 0 then t[..IndexOf(t, '=')] else t,
            if Count(t, '=') == 1 then t[LastIndexOf(t, '=') + 1..] else ""))
  }

  lemma KeyValueMatchesSpec(text: string)
    requires text != []
    ensures KeyValue(text) == KeyValueSpec(text)
  {
    var t := StripTrailing(text, '=');
    SplitDropsTrailingSeparators(text, '=');
    if t != [] {
      var kv := Pieces(t, '=');
      assert Split(text, '=') == kv;
      PiecesFirst(t, '=');
      PiecesFacts(t, '=');
      if Count(t, '=') == 1 {
        PiecesLast(t, '=');
        assert kv[1] == t[LastIndexOf(t, '=') + 1..];
      }
    }
  }

  /** A key and a value without `=`, joined by one `=`, come back apart;
      an empty value is dropped by the split and given back as `""`. */
  lemma KeyValueOfPair(key: string, value: string)
    requires '=' !in key && '=' !in value
    requires key != [] || value != []
    ensures KeyValue(key + "=" + value) == Some((key, value))
  {
    var s := key + "=" + value;
    PiecesWithoutSeparator(key, '=');
    PiecesAfterSeparator(key, value, '=');
    assert Pieces(s, '=') == [key, value];
    IndexOfFacts(s, '=');
    assert s[|key|] == '=';
    assert Split(s, '=') == DropTrailingEmpty([key, value]);
    if value == [] {
      assert [key, value][..1] == [key];
      assert DropTrailingEmpty([key, value]) == [key];
    }
  }

  /** `k=` gives key `k` and an empty value. */
  lemma KeyValueEmptyValue()
    ensures KeyValue("k=") == Some(("k", ""))
  {
    KeyValueOfPair("k", "");
    assert "k" + "=" + "" == "k=";
  }

  /** `k=v` gives key `k` and value `v`. */
  lemma KeyValueOneSeparator()
    ensures KeyValue("k=v") == Some(("k", "v"))
  {
    KeyValueOfPair("k", "v");
    assert "k" + "=" + "v" == "k=v";
  }

  /** `=v` keeps its leading empty piece: empty key, value `v`. */
  lemma KeyValueEmptyKey()
    ensures KeyValue("=v") == Some(("", "v"))
  {
    KeyValueOfPair("", "v");
    assert "" + "=" + "v" == "=v";
  }

  /** With a second `=` inside the value there are three pieces, and the
      value read is empty. */
  lemma KeyValueOfTriple(key: string, a: string, b: string)
    requires '=' !in key && '=' !in a && '=' !in b
    requires b != []
    ensures KeyValue(key + "=" + a + "=" + b) == Some((key, ""))
  {
    var s := key + "=" + a + "=" + b;
    PiecesWithoutSeparator(key, '=');
    PiecesAfterSeparator(key, a, '=');
    PiecesAfterSeparator(key + "=" + a, b, '=');
    assert Pieces(s, '=') == [key, a, b];
    IndexOfFacts(s, '=');
    assert s[|key|] == '=';
    assert Split(s, '=') == [key, a, b];
  }

  /** `=` signs after the value are dropped by the split. */
  lemma KeyValueOfPairThenSeparator(key: string, value: string)
    requires '=' !in key && '=' !in value
    requires value != []
    ensures KeyValue(key + "=" + value + "=") == Some((key, value))
  {
    var s := key + "=" + value + "=";
    PiecesWithoutSeparator(key, '=');
    PiecesAfterSeparator(key, value, '=');
    PiecesAfterSeparator(key + "=" + value, [], '=');
    assert key + "=" + value + "=" + [] == s;
    assert Pieces(s, '=') == [key, value, []];
    IndexOfFacts(s, '=');
    assert s[|key|] == '=';
    var pieces: seq<string> := [key, value, []];
    assert pieces[..2] == [key, value];
    assert DropTrailingEmpty(pieces) == DropTrailingEmpty([key, value]);
    assert Split(s, '=') == DropTrailingEmpty(pieces);
  }

  /** `k=a=b` splits into three pieces, so its value is empty. */
  lemma KeyValueSeveralSeparators()
    ensures KeyValue("k=a=b") == Some(("k", ""))
  {
    KeyValueOfTriple("k", "a", "b");
    assert "k" + "=" + "a" + "=" + "b" == "k=a=b";
  }

  /** `===` splits into nothing: there is no key to take. */
  lemma KeyValueOnlySeparators()
    ensures KeyValue("===") == None
  {
    assert "==="[..2] == "==" && "=="[..1] == "=" && "="[..0] == "";
    assert Pieces("===", '=') == ["", "", "", ""];
    assert IndexOf("===", '=') == 0;
    assert ["", "", "", ""][..3] == ["", "", ""];
    assert ["", "", ""][..2] == ["", ""];
    assert ["", ""][..1] == [""];
    assert [""][..0] == [];
    assert DropTrailingEmpty(["", "", "", ""]) == [];
  }

  /** `k=v=` loses its trailing empty piece and keeps the value `v`. */
  lemma KeyValueTrailingSeparator()
    ensures KeyValue("k=v=") == Some(("k", "v"))
  {
    KeyValueOfPairThenSeparator("k", "v");
    assert "k" + "=" + "v" + "=" == "k=v=";
  }

  // ---------------------------------------------------------------------------
  // Properties of the extraction
  // ---------------------------------------------------------------------------

  /** A selected line whose text is nothing but `=` signs. */
  predicate Malformed(line: string, p: Polarity) {
    Selected(line, p) && StripTrailing(Remainder(line), '=') == []
  }

  lemma MalformedIff(line: string, p: Polarity)
    requires Selected(line, p)
    ensures Malformed(line, p) <==> Parse(line).None?
  {
    KeyValueMatchesSpec(Remainder(line));
  }

  /** The extraction fails exactly when some selected line is made of `=`
      signs only, and then it reports the first such line. */
  lemma {:induction false} ExtractFailure(lines: seq<string>, p: Polarity)
    ensures Extract(lines, p).Failure? <==> exists i :: 0 <= i < |lines| && Malformed(lines[i], p)
    ensures Extract(lines, p).Failure? ==>
      exists i :: 0 <= i < |lines| && Malformed(lines[i], p)
                  && Extract(lines, p).error == NoKeyValue(lines[i])
                  && forall j :: 0 <= j < i ==> !Malformed(lines[j], p)
  {
    if lines != [] {
      var init, line := lines[..|lines| - 1], lines[|lines| - 1];
      ExtractFailure(init, p);
      if Extract(init, p).Failure? {
        assert Extract(lines, p) == Failure(Extract(init, p).error);
        var i :| 0 <= i < |init| && Malformed(init[i], p)
          && Extract(init, p).error == NoKeyValue(init[i])
          && forall j :: 0 <= j < i ==> !Malformed(init[j], p);
        assert lines[i] == init[i];
        forall j | 0 <= j < i ensures !Malformed(lines[j], p) {
          assert lines[j] == init[j];
        }
      } else {
        forall j | 0 <= j < |init| ensures !Malformed(lines[j], p) {
          assert lines[j] == init[j];
        }
        var before := Extract(init, p).value;
        if Selected(line, p) && Parse(line).None? {
          MalformedIff(line, p);
          assert Extract(lines, p) == Failure(NoKeyValue(line));
          assert Malformed(lines[|lines| - 1], p);
        } else {
          if Selected(line, p) {
            MalformedIff(line, p);
          }
          assert !Malformed(line, p);
          assert Extract(lines, p).Success?;
          forall j | 0 <= j < |lines| ensures !Malformed(lines[j], p) {
            if j < |init| {
              assert lines[j] == init[j];
            }
          }
        }
      }
    }
  }

  /** The line sets `k` in the extraction. */
  ghost predicate Defines(line: string, p: Polarity, k: string) {
    Selected(line, p) && Parse(line).Some? && Parse(line).value.0 == k
  }

  /** One step of the extraction, seen from one key: the last line either
      sets it to its own value or leaves it as the earlier lines had it. */
  lemma ExtractLastLine(lines: seq<string>, p: Polarity, k: string)
    requires lines != [] && Extract(lines, p).Success?
    ensures Extract(lines[..|lines| - 1], p).Success?
    ensures var line, before, after := lines[|lines| - 1], Extract(lines[..|lines| - 1], p).value, Extract(lines, p).value;
      && (Defines(line, p, k) ==> k in after && after[k] == Parse(line).value.1)
      && (!Defines(line, p, k) ==> (k in after <==> k in before) && (k in before ==> after[k] == before[k]))
  {
  }

  /** The keys extracted are exactly the keys of the selected lines. */
  lemma {:induction false} ExtractKeys(lines: seq<string>, p: Polarity, k: string)
    requires Extract(lines, p).Success?
    ensures k in Extract(lines, p).value <==> exists i :: 0 <= i < |lines| && Defines(lines[i], p, k)
  {
    if lines != [] {
      var init, line := lines[..|lines| - 1], lines[|lines| - 1];
      ExtractLastLine(lines, p, k);
      ExtractKeys(init, p, k);
      if Defines(line, p, k) {
        assert Defines(lines[|lines| - 1], p, k);
      } else if k in Extract(init, p).value {
        var i :| 0 <= i < |init| && Defines(init[i], p, k);
        assert lines[i] == init[i];
      } else {
        forall i | 0 <= i < |lines| ensures !Defines(lines[i], p, k) {
          if i < |init| {
            assert lines[i] == init[i];
          }
        }
      }
    }
  }

  /** Line `i` is the last line that sets `k`. */
  ghost predicate LastDefiner(lines: seq<string>, p: Polarity, k: string, i: int) {
    && 0 <= i < |lines|
    && Defines(lines[i], p, k)
    && forall j :: i < j < |lines| ==> !Defines(lines[j], p, k)
  }

  /** Each extracted value is that of the LAST selected line with its key:
      a duplicate does not stop the run, the later value wins. */
  lemma {:induction false} ExtractLastWins(lines: seq<string>, p: Polarity, k: string, i: int)
    requires Extract(lines, p).Success?
    requires LastDefiner(lines, p, k, i)
    ensures k in Extract(lines, p).value
    ensures Extract(lines, p).value[k] == Parse(lines[i]).value.1
  {
    var init := lines[..|lines| - 1];
    ExtractLastLine(lines, p, k);
    if i < |lines| - 1 {
      assert !Defines(lines[|lines| - 1], p, k);
      assert LastDefiner(init, p, k, i) by {
        assert init[i] == lines[i];
        forall j | i < j < |init| ensures !Defines(init[j], p, k) {
          assert init[j] == lines[j];
        }
      }
      ExtractLastWins(init, p, k, i);
    }
  }

  /** A line that is not selected can be removed anywhere without changing
      the extraction. */
  lemma {:induction false} UnselectedLineIrrelevant(a: seq<string>, line: string, b: seq<string>, p: Polarity)
    requires !Selected(line, p)
    ensures Extract(a + [line] + b, p) == Extract(a + b, p)
  {
    if b == [] {
      assert (a + [line] + b)[..|a|] == a && a + b == a;
    } else {
      var b' := b[..|b| - 1];
      UnselectedLineIrrelevant(a, line, b', p);
      assert (a + [line] + b)[..|a + [line] + b| - 1] == a + [line] + b';
      assert (a + b)[..|a + b| - 1] == a + b';
    }
  }

  /** Empty and blank lines, comments, the `+++`/`---` file headers, context
      lines and `@@` hunk headers contribute nothing to either side. */
  lemma IgnoredLinesContributeNothing(a: seq<string>, line: string, b: seq<string>, p: Polarity)
    requires || line == []
             || Remainder(line) == []
             || StartsWith(Remainder(line), "#")
             || StartsWith(line, "+++") || StartsWith(line, "---")
             || (line[0] != '+' && line[0] != '-')
    ensures Extract(a + [line] + b, p) == Extract(a + b, p)
  {
    if line != [] && StartsWith(line, "+++") {
      assert line[0] == '+' && line[..3] == "+++";
    }
    if line != [] && StartsWith(line, "---") {
      assert line[0] == '-' && line[..3] == "---";
    }
    UnselectedLineIrrelevant(a, line, b, p);
  }

  /** The lines that do not start with `c`. */
  function WithoutMarker(lines: seq<string>, c: char): (r: seq<string>)
    ensures forall i :: 0 <= i < |r| ==> r[i] == [] || r[i][0] != c
    ensures forall line :: line in r ==> line in lines
    ensures forall line :: line in lines && (line == [] || line[0] != c) ==> line in r
  {
    if lines == [] then []
    else
      var rest := WithoutMarker(lines[..|lines| - 1], c);
      var line := lines[|lines| - 1];
      if line != [] && line[0] == c then rest else rest + [line]
  }

  /** Dropping the lines that start with `c` keeps the other lines in their
      order: it distributes over concatenation, one line at a time. */
  lemma {:induction false} WithoutMarkerConcat(a: seq<string>, b: seq<string>, c: char)
    ensures WithoutMarker(a + b, c) == WithoutMarker(a, c) + WithoutMarker(b, c)
  {
    if b != [] {
      var init := b[..|b| - 1];
      WithoutMarkerConcat(a, init, c);
      assert (a + b)[..|a + b| - 1] == a + init;
      assert (a + b)[|a + b| - 1] == b[|b| - 1];
    } else {
      assert a + b == a;
    }
  }

  /** A single line is dropped exactly when it starts with `c`. */
  lemma WithoutMarkerLine(line: string, c: char)
    ensures WithoutMarker([line], c) == if line != [] && line[0] == c then [] else [line]
  {
    assert [line][..0] == [];
  }

  /** Extending two inputs that extract alike by the same line keeps them alike. */
  lemma ExtractSnocCongruent(x: seq<string>, y: seq<string>, line: string, p: Polarity)
    requires Extract(x, p) == Extract(y, p)
    ensures Extract(x + [line], p) == Extract(y + [line], p)
  {
    assert (x + [line])[..|x|] == x;
    assert (y + [line])[..|y|] == y;
  }

  /** An unselected last line adds nothing. */
  lemma ExtractSkip(x: seq<string>, line: string, p: Polarity)
    requires !Selected(line, p)
    ensures Extract(x + [line], p) == Extract(x, p)
  {
    assert (x + [line])[..|x|] == x;
  }

  /** Additions never read `-` lines and deletions never read `+` lines:
      dropping the other side's lines changes nothing. */
  lemma {:induction false} OtherSideIgnored(lines: seq<string>, p: Polarity)
    ensures var other := if p.Addition? then '-' else '+';
            Extract(lines, p) == Extract(WithoutMarker(lines, other), p)
  {
    var other := if p.Addition? then '-' else '+';
    if lines != [] {
      var init, line := lines[..|lines| - 1], lines[|lines| - 1];
      assert lines == init + [line];
      OtherSideIgnored(init, p);
      var rest := WithoutMarker(init, other);
      if line != [] && line[0] == other {
        ExtractSkip(init, line, p);
      } else {
        ExtractSnocCongruent(init, rest, line, p);
      }
    }
  }
}
