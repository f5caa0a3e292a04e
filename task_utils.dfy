/** The task utilities: the labels column of the task store, written as
    the labels joined by commas, and the due-date parser. */
module TaskUtils {
  import opened Types

  function TotalLength(labels: seq<string>): nat {
    if labels == [] then 0 else |labels[0]| + TotalLength(labels[1..])
  }

  /** `serialize_labels`: `labels.join(",")`. */
  function SerializeLabels(labels: seq<string>): string {
    if labels == [] then ""
    else if |labels| == 1 then labels[0]
    else
      labels[0] + "," + SerializeLabels(labels[1..])
  }

  /** For `n >= 1` labels the output is as long as the labels together plus
      the `n - 1` separators. */
  lemma {:induction false} SerializeLength(labels: seq<string>)
    requires |labels| >= 1
    ensures |SerializeLabels(labels)| == TotalLength(labels) + |labels| - 1
  {
    if |labels| > 1 {
      SerializeLength(labels[1..]);
    }
  }

  /** The commas inside the labels themselves. */
  function CommaCount(labels: seq<string>): nat {
    if labels == [] then 0 else multiset(labels[0])[','] + CommaCount(labels[1..])
  }

  /** Splitting at every comma, as a reader of the labels column would:
      the inverse that `SerializeLabels` is measured against. */
  function SplitOnComma(s: string): (parts: seq<string>)
    ensures |parts| >= 1
  {
    if s == [] then [""]
    else
      var rest := SplitOnComma(s[1..]);
      if s[0] == ',' then [""] + rest
      else [[s[0]] + rest[0]] + rest[1..]
  }

  ghost predicate CommaFree(labels: seq<string>) {
    forall i :: 0 <= i < |labels| ==> ',' !in labels[i]
  }

  /** The output holds exactly one separator between each two labels,
      besides the commas inside the labels. */
  lemma {:induction false} SerializeCommaCount(labels: seq<string>)
    requires |labels| >= 1
    ensures multiset(SerializeLabels(labels))[','] == |labels| - 1 + CommaCount(labels)
  {
    if |labels| > 1 {
      SerializeCommaCount(labels[1..]);
      var rest := SerializeLabels(labels[1..]);
      assert multiset(labels[0] + "," + rest) == multiset(labels[0]) + multiset(",") + multiset(rest);
    }
  }

  /** A split yields one piece more than there are commas. */
  lemma {:induction false} SplitPieceCount(s: string)
    ensures |SplitOnComma(s)| == multiset(s)[','] + 1
  {
    if s != [] {
      SplitPieceCount(s[1..]);
      assert s == [s[0]] + s[1..];
      assert multiset(s) == multiset([s[0]]) + multiset(s[1..]);
    }
  }

  /** Reading the column back gives one label more than was written for
      each comma inside a label: exactly the written count when no label
      holds a comma. */
  lemma ReadBackLabelCount(labels: seq<string>)
    requires |labels| >= 1
    ensures |SplitOnComma(SerializeLabels(labels))| == |labels| + CommaCount(labels)
  {
    SerializeCommaCount(labels);
    SplitPieceCount(SerializeLabels(labels));
  }

  /** The empty list and a single label come out as "" and the label itself. */
  lemma SerializeSmall(single: string)
    ensures SerializeLabels([]) == ""
    ensures SerializeLabels([single]) == single
  {
  }

  lemma {:induction false} SplitCommaFree(a: string)
    requires ',' !in a
    ensures SplitOnComma(a) == [a]
  {
    if a != [] {
      SplitCommaFree(a[1..]);
      assert [a[0]] + a[1..] == a;
    }
  }

  lemma {:induction false} SplitAfterLabel(a: string, b: string)
    requires ',' !in a
    ensures SplitOnComma(a + "," + b) == [a] + SplitOnComma(b)
  {
    if a == [] {
      assert a + "," + b == [','] + b;
      assert (a + "," + b)[1..] == b;
    } else {
      SplitAfterLabel(a[1..], b);
      assert (a + "," + b)[1..] == a[1..] + "," + b;
      assert [a[0]] + a[1..] == a;
    }
  }

  /** Round trip: a non-empty list of labels without commas is recovered
      by splitting its serialisation. */
  lemma {:induction false} SplitSerialize(labels: seq<string>)
    requires |labels| >= 1 && CommaFree(labels)
    ensures SplitOnComma(SerializeLabels(labels)) == labels
  {
    if |labels| == 1 {
      SplitCommaFree(labels[0]);
    } else {
      SplitSerialize(labels[1..]);
      SplitAfterLabel(labels[0], SerializeLabels(labels[1..]));
      assert [labels[0]] + labels[1..] == labels;
    }
  }

  lemma SerializeCons(head: string, rest: seq<string>)
    requires |rest| >= 1
    ensures SerializeLabels([head] + rest) == head + "," + SerializeLabels(rest)
  {
    assert ([head] + rest)[1..] == rest;
  }

  /** Putting a character in front of the first piece puts it in front of
      the joined string. */
  lemma PrependToFirst(c: char, parts: seq<string>)
    requires |parts| >= 1
    ensures SerializeLabels([[c] + parts[0]] + parts[1..]) == [c] + SerializeLabels(parts)
  {
    var head, rest := parts[0], parts[1..];
    assert parts == [head] + rest;
    if rest == [] {
      PrependToOnly(c, head);
    } else {
      PrependToHead(c, head, rest);
    }
  }

  lemma PrependToOnly(c: char, head: string)
    ensures SerializeLabels([[c] + head] + []) == [c] + SerializeLabels([head] + [])
  {
    assert [[c] + head] + [] == [[c] + head];
    assert [head] + [] == [head];
  }

  lemma PrependToHead(c: char, head: string, rest: seq<string>)
    requires |rest| >= 1
    ensures SerializeLabels([[c] + head] + rest) == [c] + SerializeLabels([head] + rest)
  {
    SerializeCons([c] + head, rest);
    SerializeCons(head, rest);
    JoinAfterPrefix(c, head, SerializeLabels(rest));
  }

  /** Kept apart from the lemmas that mention `SerializeLabels`, where the
      solver would otherwise keep unfolding the join while proving it. */
  lemma JoinAfterPrefix(c: char, head: string, tail: string)
    ensures ([c] + head) + "," + tail == [c] + (head + "," + tail)
  {
  }

  /** The other round trip holds for every string: joining the pieces of a
      split gives the string back. */
  lemma {:induction false} SerializeSplit(s: string)
    ensures SerializeLabels(SplitOnComma(s)) == s
  {
    if s != [] {
      var rest := SplitOnComma(s[1..]);
      SerializeSplit(s[1..]);
      assert s == [s[0]] + s[1..];
      if s[0] == ',' {
        assert SplitOnComma(s) == [""] + rest;
        SerializeCons("", rest);
      } else {
        assert SplitOnComma(s) == [[s[0]] + rest[0]] + rest[1..];
        PrependToFirst(s[0], rest);
      }
    }
  }

  /** Without commas in the labels the serialisation is injective on
      non-empty lists. */
  lemma SerializeInjective(xs: seq<string>, ys: seq<string>)
    requires |xs| >= 1 && |ys| >= 1 && CommaFree(xs) && CommaFree(ys)
    requires SerializeLabels(xs) == SerializeLabels(ys)
    ensures xs == ys
  {
    SplitSerialize(xs);
    SplitSerialize(ys);
  }

  /** In general it is not: a label with a comma reads as two, and the
      empty list writes the same as one empty label. */
  lemma SerializeNotInjective()
    ensures SerializeLabels(["a,b"]) == SerializeLabels(["a", "b"])
    ensures SerializeLabels([]) == SerializeLabels([""])
  {
  }

  /** `parse_due_date`: the `%Y-%m-%dT%H:%M:%S%z` parser of the date library
      enters as `parse`; a string it rejects is a `DateParserError`. */
  function ParseDueDate(parse: string -> Option<Timestamp>, text: string): (r: Result<Timestamp>)
    ensures r.Ok? <==> parse(text).Some?
    ensures r.Ok? ==> r.value == parse(text).value
    ensures r.Err? ==> r.error == DateParserError
  {
    match parse(text)
    case Some(t) => Ok(t)
    case None => Err(DateParserError)
  }
}
