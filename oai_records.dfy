/**
 * `extract_records`: one ListRecords response of the OAI-PMH 2.0
 * endpoint turned into one dictionary per `oai:record`, plus the
 * resumption token that asks for the next batch (section 3.5 of the
 * Open Archives Initiative Protocol for Metadata Harvesting v2.0).
 *
 * The XML parser and its XPath queries are not modelled: a parsed
 * response is given as the texts those queries return.
 */
module OaiRecords {

  import opened Wrappers
  import opened Strings

  /** `element.text`: None for an element without text. */
  type Text = Option<string>

  /** A dictionary value: one text, or the list made once a tag repeats. */
  datatype Value = Scalar(text: Text) | Many(texts: seq<Text>)

  type Record = map<string, Value>

  /**
   * One `oai:record` as the XPath queries see it: the texts of its header
   * identifiers and datestamps, and its Dublin Core children as
   * (local name, text) pairs in document order.
   */
  datatype RawRecord = RawRecord(identifiers: seq<string>, datestamps: seq<string>,
                                 elements: seq<(string, Text)>)

  /**
   * A response body: empty, not well-formed XML (the parser raises), or a
   * parsed document with its records and its `resumptionToken` texts.
   */
  datatype Payload = Empty | Malformed | Document(records: seq<RawRecord>, tokenTexts: seq<string>)

  /** What `extract_records` returns: the dictionaries and the token. */
  datatype Batch = Batch(records: seq<Record>, token: Option<string>)

  // ---------------------------------------------------------------------
  // The folded dictionary, defined tag by tag

  /** The texts of the fields tagged `t`, in document order. */
  function TextsOf(fields: seq<(string, Text)>, t: string): (ts: seq<Text>)
    ensures |ts| <= |fields|
  {
    if fields == [] then []
    else
      var last := fields[|fields| - 1];
      TextsOf(fields[..|fields| - 1], t) + (if last.0 == t then [last.1] else [])
  }

  function TagsOf(fields: seq<(string, Text)>): set<string>
  {
    set f | f in fields :: f.0
  }

  /** One text stays a scalar; two or more become the list of all of them. */
  function Collapse(ts: seq<Text>): Value
  {
    if |ts| == 1 then Scalar(ts[0]) else Many(ts)
  }

  /** The dictionary that folding `fields` into an empty one yields, tag by tag. */
  function FieldMap(fields: seq<(string, Text)>): Record
  {
    map t | t in TagsOf(fields) :: Collapse(TextsOf(fields, t))
  }

  /** The header identifier and datestamp, first text only, set before the Dublin Core elements. */
  function HeaderFields(raw: RawRecord): (h: seq<(string, Text)>)
    ensures forall i :: 0 <= i < |h| ==> h[i].0 == "identifier" || h[i].0 == "datestamp"
    ensures TextsOf(h, "identifier") == if raw.identifiers != [] then [Some(raw.identifiers[0])] else []
    ensures TextsOf(h, "datestamp") == if raw.datestamps != [] then [Some(raw.datestamps[0])] else []
  {
    var h1 := if raw.identifiers != [] then [("identifier", Some(raw.identifiers[0]))] else [];
    var h2 := if raw.datestamps != [] then [("datestamp", Some(raw.datestamps[0]))] else [];
    assert "identifier" != "datestamp" by { assert "identifier"[0] != "datestamp"[0]; }
    TextsOfAppend(h1, h2, "identifier");
    TextsOfAppend(h1, h2, "datestamp");
    if raw.identifiers != [] then
      TextsOfSingle("identifier", Some(raw.identifiers[0]), "identifier");
      TextsOfSingle("identifier", Some(raw.identifiers[0]), "datestamp");
      if raw.datestamps != [] then
        TextsOfSingle("datestamp", Some(raw.datestamps[0]), "identifier");
        TextsOfSingle("datestamp", Some(raw.datestamps[0]), "datestamp");
        h1 + h2
      else h1 + h2
    else if raw.datestamps != [] then
      TextsOfSingle("datestamp", Some(raw.datestamps[0]), "identifier");
      TextsOfSingle("datestamp", Some(raw.datestamps[0]), "datestamp");
      h1 + h2
    else h1 + h2
  }

  /**
   * The dictionary of one record: its keys are the header fields present
   * and the tags of its Dublin Core elements, and nothing else.
   */
  function RecordOf(raw: RawRecord): (rec: Record)
    ensures raw.identifiers != [] ==> "identifier" in rec
    ensures raw.datestamps != [] ==> "datestamp" in rec
    ensures forall f :: f in raw.elements ==> f.0 in rec
    ensures forall t :: t in rec ==> t == "identifier" || t == "datestamp" || t in TagsOf(raw.elements)
  {
    var h := HeaderFields(raw);
    assert raw.identifiers != [] ==> h[0].0 == "identifier" by {
      if raw.identifiers != [] { TagsHaveTexts(h, "identifier"); }
    }
    FieldMap(h + raw.elements)
  }

  lemma {:induction false} TagsHaveTexts(fields: seq<(string, Text)>, t: string)
    ensures t in TagsOf(fields) <==> TextsOf(fields, t) != []
  {
    if fields != [] {
      var init := fields[..|fields| - 1];
      TagsHaveTexts(init, t);
      assert fields == init + [fields[|fields| - 1]];
      assert TagsOf(fields) == TagsOf(init) + {fields[|fields| - 1].0};
    }
  }

  lemma {:induction false} TextsOfAppend(a: seq<(string, Text)>, b: seq<(string, Text)>, t: string)
    ensures TextsOf(a + b, t) == TextsOf(a, t) + TextsOf(b, t)
    decreases |b|
  {
    if b != [] {
      var init := b[..|b| - 1];
      assert (a + b)[..|a + b| - 1] == a + init;
      TextsOfAppend(a, init, t);
    } else {
      assert a + b == a;
    }
  }

  /**
   * The Dublin Core folding: a tag that occurs is a key; a tag seen once
   * holds its one text, a tag seen k >= 2 times holds the list of exactly
   * those k texts, in document order.
   */
  lemma FoldedValues(fields: seq<(string, Text)>, t: string)
    ensures t in FieldMap(fields) <==> |TextsOf(fields, t)| >= 1
    ensures |TextsOf(fields, t)| == 1 ==> FieldMap(fields)[t] == Scalar(TextsOf(fields, t)[0])
    ensures |TextsOf(fields, t)| >= 2 ==> FieldMap(fields)[t] == Many(TextsOf(fields, t))
  {
    TagsHaveTexts(fields, t);
  }

  lemma TextsOfSnoc(fields: seq<(string, Text)>, tag: string, text: Text, t: string)
    ensures TextsOf(fields + [(tag, text)], t) == TextsOf(fields, t) + (if t == tag then [text] else [])
  {
    var fs := fields + [(tag, text)];
    assert fs[..|fs| - 1] == fields;
  }

  /** One more element only touches the entry of its own tag. */
  lemma FieldMapSnoc(fields: seq<(string, Text)>, tag: string, text: Text)
    ensures FieldMap(fields + [(tag, text)]) == FieldMap(fields)[tag := Collapse(TextsOf(fields, tag) + [text])]
  {
    var fs := fields + [(tag, text)];
    var m, m' := FieldMap(fields), FieldMap(fs);
    var target := m[tag := Collapse(TextsOf(fields, tag) + [text])];
    assert TagsOf(fs) == TagsOf(fields) + {tag};
    forall t | t in m' ensures t in target && m'[t] == target[t] {
      TextsOfSnoc(fields, tag, text, t);
    }
    assert m'.Keys == target.Keys;
  }

  /**
   * One more element changes the dictionary as the loop body does: a new
   * tag gets the text, a scalar becomes a two-element list, a list grows.
   */
  lemma FoldStep(fields: seq<(string, Text)>, tag: string, text: Text)
    ensures var m, m' := FieldMap(fields), FieldMap(fields + [(tag, text)]);
            && (tag !in m ==> m' == m[tag := Scalar(text)])
            && (tag in m && m[tag].Scalar? ==> m' == m[tag := Many([m[tag].text, text])])
            && (tag in m && m[tag].Many? ==> m' == m[tag := Many(m[tag].texts + [text])])
  {
    var m := FieldMap(fields);
    var ts := TextsOf(fields, tag);
    FieldMapSnoc(fields, tag, text);
    TagsHaveTexts(fields, tag);
    if tag in m {
      assert m[tag] == Collapse(ts);
      if m[tag].Scalar? {
        assert |ts| == 1 && ts == [m[tag].text];
        assert ts + [text] == [m[tag].text, text];
      } else {
        assert |ts + [text]| != 1;
      }
    } else {
      assert ts + [text] == [text];
    }
  }

  lemma TextsOfSingle(k: string, v: Text, t: string)
    ensures TextsOf([(k, v)], t) == if k == t then [v] else []
  {
    assert [(k, v)][..0] == [];
  }

  /** A header whose only text for `key` is `v`, followed by the Dublin Core elements. */
  lemma JoinsHeader(h: seq<(string, Text)>, elements: seq<(string, Text)>, key: string, v: Text)
    requires TextsOf(h, key) == [v]
    ensures var rec, dc := FieldMap(h + elements), TextsOf(elements, key);
            && key in rec
            && (dc == [] ==> rec[key] == Scalar(v))
            && (dc != [] ==> rec[key] == Many([v] + dc))
  {
    TextsOfAppend(h, elements, key);
    FoldedValues(h + elements, key);
  }

  /**
   * The header identifier is set first, so a Dublin Core element of the
   * same name joins it: a list headed by the header's text. The same holds
   * for the datestamp.
   */
  lemma HeaderJoinsDublinCore(raw: RawRecord)
    ensures var rec, dc := RecordOf(raw), TextsOf(raw.elements, "identifier");
            raw.identifiers != [] ==>
              && (dc == [] ==> rec["identifier"] == Scalar(Some(raw.identifiers[0])))
              && (dc != [] ==> rec["identifier"] == Many([Some(raw.identifiers[0])] + dc))
    ensures var rec, dc := RecordOf(raw), TextsOf(raw.elements, "datestamp");
            raw.datestamps != [] ==>
              && (dc == [] ==> rec["datestamp"] == Scalar(Some(raw.datestamps[0])))
              && (dc != [] ==> rec["datestamp"] == Many([Some(raw.datestamps[0])] + dc))
  {
    var h := HeaderFields(raw);
    if raw.identifiers != [] {
      JoinsHeader(h, raw.elements, "identifier", Some(raw.identifiers[0]));
    }
    if raw.datestamps != [] {
      JoinsHeader(h, raw.elements, "datestamp", Some(raw.datestamps[0]));
    }
  }

  lemma PrefixSnoc<T>(h: seq<T>, e: seq<T>, i: nat)
    requires i < |e|
    ensures h + e[..i + 1] == (h + e[..i]) + [e[i]]
  {
    assert e[..i + 1] == e[..i] + [e[i]];
  }

  /** The header's identifier and datestamp, each the first one present, as a fresh dictionary. */
  method FoldHeader(raw: RawRecord) returns (rec: Record)
    ensures rec == FieldMap(HeaderFields(raw))
  {
    var h := HeaderFields(raw);
    var h1 := if raw.identifiers != [] then [("identifier", Some(raw.identifiers[0]))] else [];
    assert h == h1 + (if raw.datestamps != [] then [("datestamp", Some(raw.datestamps[0]))] else []);
    rec := map[];
    assert rec == FieldMap([]);
    if raw.identifiers != [] {
      FoldStep([], "identifier", Some(raw.identifiers[0]));
      rec := rec["identifier" := Scalar(Some(raw.identifiers[0]))];
    }
    assert rec == FieldMap(h1);
    if raw.datestamps != [] {
      FoldStep(h1, "datestamp", Some(raw.datestamps[0]));
      rec := rec["datestamp" := Scalar(Some(raw.datestamps[0]))];
    }
  }

  /** Folding one record: the header fields first, then each Dublin Core element in turn. */
  method FoldRecord(raw: RawRecord) returns (rec: Record)
    ensures rec == RecordOf(raw)
  {
    rec := FoldHeader(raw);
    var h := HeaderFields(raw);
    var elements := raw.elements;
    assert h + elements[..0] == h;
    for i := 0 to |elements|
      invariant rec == FieldMap(h + elements[..i])
    {
      var (tag, text) := elements[i];
      PrefixSnoc(h, elements, i);
      FoldStep(h + elements[..i], tag, text);
      if tag in rec {
        if rec[tag].Many? {
          rec := rec[tag := Many(rec[tag].texts + [text])];
        } else {
          rec := rec[tag := Many([rec[tag].text, text])];
        }
      } else {
        rec := rec[tag := Scalar(text)];
      }
    }
    assert elements[..|elements|] == elements;
  }

  // ---------------------------------------------------------------------
  // The resumption token

  /**
   * The first `resumptionToken` text, unstripped, when its stripped form
   * is non-empty; otherwise None.
   */
  function ChooseToken(texts: seq<string>): (r: Option<string>)
    ensures r.Some? <==> texts != [] && !AllSpace(texts[0])
    ensures r.Some? ==> r.value == texts[0] && r.value != []
  {
    if texts != [] && Strip(texts[0]) != [] then Some(texts[0]) else None
  }

  /** The dictionaries of `raws`, one each, in order. */
  function RecordsOf(raws: seq<RawRecord>): (rs: seq<Record>)
    ensures |rs| == |raws|
  {
    if raws == [] then [] else RecordsOf(raws[..|raws| - 1]) + [RecordOf(raws[|raws| - 1])]
  }

  /** The `i`-th dictionary is the `i`-th record's. */
  lemma {:induction false} RecordsOfAt(raws: seq<RawRecord>, i: nat)
    requires i < |raws|
    ensures RecordsOf(raws)[i] == RecordOf(raws[i])
    decreases |raws|
  {
    if i < |raws| - 1 {
      var init := raws[..|raws| - 1];
      RecordsOfAt(init, i);
      assert RecordsOf(raws)[i] == RecordsOf(init)[i];
    }
  }

  /** The batch of a response body; a body the parser rejects yields no records and no token. */
  function Extracted(p: Payload): Batch
  {
    match p
    case Document(raws, texts) => Batch(RecordsOf(raws), ChooseToken(texts))
    case _ => Batch([], None)
  }

  /**
   * One dictionary per record, in document order, and the chosen token;
   * `([], None)` when the body does not parse.
   */
  method ExtractRecords(p: Payload) returns (records: seq<Record>, token: Option<string>)
    ensures !p.Document? ==> records == [] && token == None
    ensures p.Document? ==> |records| == |p.records| && token == ChooseToken(p.tokenTexts)
    ensures p.Document? ==> forall i :: 0 <= i < |records| ==> records[i] == RecordOf(p.records[i])
    ensures Batch(records, token) == Extracted(p)
  {
    if !p.Document? {
      return [], None;
    }
    records := FoldRecords(p.records);
    token := ChooseToken(p.tokenTexts);
    forall i | 0 <= i < |records| ensures records[i] == RecordOf(p.records[i]) {
      RecordsOfAt(p.records, i);
    }
  }

  /** `for record in root.xpath('//oai:record', ...)`: each record folded in turn. */
  method FoldRecords(raws: seq<RawRecord>) returns (records: seq<Record>)
    ensures records == RecordsOf(raws)
  {
    records := [];
    for i := 0 to |raws|
      invariant records == RecordsOf(raws[..i])
    {
      assert raws[..i + 1][..i] == raws[..i];
      var rec := FoldRecord(raws[i]);
      records := records + [rec];
    }
    assert raws[..|raws|] == raws;
  }
}
