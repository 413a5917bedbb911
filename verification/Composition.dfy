// Layouts written one after the other, as the VAA's header, envelope and payload are: what holds of
// the parts holds of the whole.
module Composition {
  import opened Common
  import opened Layouts
  import opened Serialize
  import opened Deserialize
  import opened RoundTrip

  lemma {:induction false} BytesOfConcat(a: Layout, b: Layout, data: Value)
    ensures LayoutBytes(a + b, data) == Concat(LayoutBytes(a, data), LayoutBytes(b, data))
  {
    var rest := LayoutBytes(b, data);
    if |a| == 0 {
      assert a + b == b;
      assert rest.Ok? ==> [] + rest.value == rest.value;
    } else {
      assert (a + b)[1..] == a[1..] + b;
      BytesOfConcat(a[1..], b, data);
      var first, mid := FieldBytes(a[0], data), LayoutBytes(a[1..], data);
      if first.Ok? && mid.Ok? && rest.Ok? {
        assert first.value + (mid.value + rest.value) == first.value + mid.value + rest.value;
      }
    }
  }

  function ThenParse(first: Result<Parsed<Fields>>, b: Layout, encoded: bytes): Result<Parsed<Fields>> {
    var p :- first;
    var q :- ParseLayout(b, encoded, p.offset);
    Ok(Parsed(p.value + q.value, q.offset))
  }

  lemma {:induction false} ParseOfConcat(a: Layout, b: Layout, encoded: bytes, offset: nat)
    ensures ParseLayout(a + b, encoded, offset) == ThenParse(ParseLayout(a, encoded, offset), b, encoded)
  {
    if |a| == 0 {
      assert a + b == b;
      var q := ParseLayout(b, encoded, offset);
      assert q.Ok? ==> map[] + q.value.value == q.value.value;
    } else {
      assert (a + b)[1..] == a[1..] + b;
      var first := ParseItem(a[0], encoded, offset);
      if first.Ok? {
        ParseOfConcat(a[1..], b, encoded, first.value.offset);
        var mid := ParseLayout(a[1..], encoded, first.value.offset);
        if mid.Ok? {
          AssocFields(Assign(a[0], first.value.value), mid.value.value, ParseLayout(b, encoded, mid.value.offset));
        }
      }
    }
  }

  lemma AssocFields(f: Fields, g: Fields, rest: Result<Parsed<Fields>>)
    ensures rest.Ok? ==> f + (g + rest.value.value) == f + g + rest.value.value
  {
  }

  lemma {:induction false} NamesOfConcat(a: Layout, b: Layout)
    ensures Names(a + b) == Names(a) + Names(b)
  {
    if |a| == 0 {
      assert a + b == b;
    } else {
      assert (a + b)[1..] == a[1..] + b;
      NamesOfConcat(a[1..], b);
    }
  }

  lemma {:induction false} LosslessConcat(a: Layout, b: Layout)
    ensures Lossless(a + b) <==> Lossless(a) && Lossless(b)
  {
    if |a| == 0 {
      assert a + b == b;
    } else {
      assert (a + b)[1..] == a[1..] + b;
      LosslessConcat(a[1..], b);
    }
  }

  lemma {:induction false} DistinctConcat(a: Layout, b: Layout)
    requires DistinctNames(a) && DistinctNames(b) && Names(a) !! Names(b)
    ensures DistinctNames(a + b)
  {
    if |a| == 0 {
      assert a + b == b;
    } else {
      assert (a + b)[1..] == a[1..] + b;
      DistinctConcat(a[1..], b);
      NamesOfConcat(a[1..], b);
    }
  }

  lemma {:induction false} DelimitedConcat(a: Layout, b: Layout)
    requires Delimited(a) && !LayoutOpenEnded(a) && Delimited(b)
    ensures Delimited(a + b) && (LayoutOpenEnded(a + b) <==> LayoutOpenEnded(b))
  {
    if |a| == 0 {
      assert a + b == b;
    } else {
      assert (a + b)[1..] == a[1..] + b;
      DelimitedConcat(a[1..], b);
    }
  }

  lemma {:induction false} CarriesConcat(a: Layout, b: Layout, fields: Fields)
    ensures Carries(a + b, fields) <==> Carries(a, fields) && Carries(b, fields)
  {
    if |a| == 0 {
      assert a + b == b;
    } else {
      assert (a + b)[1..] == a[1..] + b;
      CarriesConcat(a[1..], b, fields);
    }
  }

  /** Printing reads only the fields that the layout names. */
  lemma {:induction false} PrintsFromNames(layout: Layout, f: Fields, g: Fields)
    requires Restrict(f, Names(layout)) == Restrict(g, Names(layout))
    ensures LayoutBytes(layout, RecordV(f)) == LayoutBytes(layout, RecordV(g))
  {
    if |layout| > 0 {
      RestrictFewer(f, g, Names(layout), Names(layout[1..]));
      PrintsFromNames(layout[1..], f, g);
      if !layout[0].Omitted() {
        SameField(f, g, Names(layout), layout[0].name);
      }
      assert FieldBytes(layout[0], RecordV(f)) == FieldBytes(layout[0], RecordV(g));
    }
  }

  lemma SameField(f: Fields, g: Fields, names: set<string>, name: string)
    requires Restrict(f, names) == Restrict(g, names) && name in names
    ensures Field(RecordV(f), name) == Field(RecordV(g), name)
  {
    assert name in f <==> name in Restrict(f, names);
    assert name in g <==> name in Restrict(g, names);
  }

  lemma RestrictFewer(f: Fields, g: Fields, names: set<string>, fewer: set<string>)
    requires Restrict(f, names) == Restrict(g, names) && fewer <= names
    ensures Restrict(f, fewer) == Restrict(g, fewer)
  {
    forall name | name in fewer
      ensures Field(RecordV(f), name) == Field(RecordV(g), name) && (name in f <==> name in g)
    {
      SameField(f, g, names, name);
      assert name in f <==> name in Restrict(f, names);
      assert name in g <==> name in Restrict(g, names);
    }
  }

  lemma PrefixAt(bs: bytes, after: bytes)
    ensures At(bs, bs + after, 0, false)
  {
  }

  lemma SuffixAt(before: bytes, bs: bytes)
    ensures At(bs, before + bs, |before|, true) && At(bs, before + bs, |before|, false)
  {
  }

  /** A layout within the data decodes to what was printed there, unless it is open-ended. */
  lemma DelimitedDecodes(layout: Layout, fields: Fields, bs: bytes, encoded: bytes, offset: nat)
    requires Delimited(layout) && Carries(layout, fields) && LayoutBytes(layout, RecordV(fields)) == Ok(bs)
    requires !LayoutOpenEnded(layout) && At(bs, encoded, offset, false)
    ensures ParseLayout(layout, encoded, offset) == Ok(Parsed(Restrict(fields, Names(layout)), offset + |bs|))
  {
    LayoutDecodes(layout, fields, bs, encoded, offset);
  }

  /** A layout at the end of the data does, open-ended or not. */
  lemma LastDecodes(layout: Layout, fields: Fields, bs: bytes, encoded: bytes, offset: nat)
    requires Delimited(layout) && Carries(layout, fields) && LayoutBytes(layout, RecordV(fields)) == Ok(bs)
    requires At(bs, encoded, offset, true)
    ensures ParseLayout(layout, encoded, offset) == Ok(Parsed(Restrict(fields, Names(layout)), offset + |bs|))
  {
    LayoutDecodes(layout, fields, bs, encoded, offset);
  }
}
