/** Query-string value lookup (util.get_value_from_link): the query component of a URL is cut into
    name=value fields as urllib.parse.parse_qsl does, collected into a dict, and the value under
    one name is read back. */
module Query {
  import opened Wrappers
  import opened Text

  /** urlsplit(url).query: the text after the first '?' that stands before the first '#'. */
  function QueryPart(url: string): string {
    var beforeFragment := SplitOnce(url, '#')[0];
    var parts := SplitOnce(beforeFragment, '?');
    if |parts| == 2 then parts[1] else ""
  }

  /** parse_qsl's treatment of one field's text: '+' stands for a space (percent-decoding is the
      identity in this model). */
  function Unplus(s: string): string {
    ReplaceAll(s, "+", " ")
  }

  /** parse_qsl(qs) with its defaults: fields are separated by '&'; an empty field, a field without
      '=' and a field whose value is empty are dropped; the name is what stands before the first '='. */
  function ParseQsl(qs: string): seq<(string, string)> {
    FieldPairs(SplitOn(qs, '&'))
  }

  function FieldPairs(fields: seq<string>): seq<(string, string)> {
    if fields == [] then []
    else
      var nv := SplitOnce(fields[0], '=');
      (if fields[0] != "" && |nv| == 2 && nv[1] != "" then [(Unplus(nv[0]), Unplus(nv[1]))] else [])
      + FieldPairs(fields[1..])
  }

  /** dict(pairs).get(key): the value of the last pair with that name; None when no pair has it. */
  function LastValue(pairs: seq<(string, string)>, key: string): Option<string> {
    if pairs == [] then None
    else if pairs[|pairs| - 1].0 == key then Some(pairs[|pairs| - 1].1)
    else LastValue(pairs[..|pairs| - 1], key)
  }

  /** The lookup is None exactly when no pair has the name; otherwise it is the value of a pair
      with that name after which no pair has it. */
  lemma {:induction false} LastValueSpec(pairs: seq<(string, string)>, key: string)
    ensures LastValue(pairs, key).None? <==> forall i :: 0 <= i < |pairs| ==> pairs[i].0 != key
    ensures LastValue(pairs, key).Some? ==>
              exists i :: 0 <= i < |pairs| && pairs[i] == (key, LastValue(pairs, key).value)
                          && forall j :: i < j < |pairs| ==> pairs[j].0 != key
  {
    if pairs != [] {
      var n := |pairs| - 1;
      if pairs[n].0 != key {
        var init := pairs[..n];
        LastValueSpec(init, key);
        assert forall i :: 0 <= i < n ==> init[i] == pairs[i];
        if LastValue(init, key).Some? {
          var i :| 0 <= i < n && init[i] == (key, LastValue(init, key).value)
                   && forall j :: i < j < n ==> init[j].0 != key;
          assert pairs[i] == (key, LastValue(pairs, key).value);
        }
      } else {
        assert pairs[n] == (key, LastValue(pairs, key).value);
      }
    }
  }

  /** util.get_value_from_link(url, key). */
  function GetValueFromLink(url: string, key: string): Option<string> {
    LastValue(ParseQsl(QueryPart(url)), key)
  }

  // ---------------------------------------------------------------------------
  // Building a query string, the inverse of parse_qsl on plain fields

  /** A name or value that survives the round trip unchanged: no field separator, no '+', no '#'
      (and, for a name, no '='). */
  predicate PlainName(s: string) {
    '&' !in s && '=' !in s && '+' !in s && '#' !in s
  }

  predicate PlainValue(s: string) {
    s != "" && '&' !in s && '+' !in s && '#' !in s
  }

  predicate PlainPairs(pairs: seq<(string, string)>) {
    forall i :: 0 <= i < |pairs| ==> PlainName(pairs[i].0) && PlainValue(pairs[i].1)
  }

  function Field(p: (string, string)): string {
    p.0 + "=" + p.1
  }

  function Fields(pairs: seq<(string, string)>): (fs: seq<string>)
    ensures |fs| == |pairs|
    ensures forall i :: 0 <= i < |pairs| ==> fs[i] == Field(pairs[i])
  {
    if pairs == [] then [] else [Field(pairs[0])] + Fields(pairs[1..])
  }

  /** urlencode(pairs) for plain names and values: name=value fields joined by '&'. */
  function BuildQuery(pairs: seq<(string, string)>): string {
    Join(Fields(pairs), "&")
  }

  lemma UnplusPlain(s: string)
    requires '+' !in s
    ensures Unplus(s) == s
  {
    AbsentCharNoOccurrence(s, '+');
    ReplaceAbsent(s, "+", " ");
  }

  lemma {:induction false} FieldPairsOfFields(pairs: seq<(string, string)>)
    requires PlainPairs(pairs)
    ensures FieldPairs(Fields(pairs)) == pairs
  {
    if pairs != [] {
      var p := pairs[0];
      var fs := Fields(pairs);
      assert fs[0] == p.0 + ['='] + p.1;
      SplitOnceAt(p.0, '=', p.1);
      UnplusPlain(p.0);
      UnplusPlain(p.1);
      assert fs[1..] == Fields(pairs[1..]);
      FieldPairsOfFields(pairs[1..]);
    }
  }

  /** parse_qsl(urlencode(pairs)) == pairs for plain names and values. */
  lemma ParseBuildQuery(pairs: seq<(string, string)>)
    requires PlainPairs(pairs)
    ensures ParseQsl(BuildQuery(pairs)) == pairs
  {
    var fs := Fields(pairs);
    if pairs == [] {
      assert BuildQuery(pairs) == "";
      assert SplitOn("", '&') == [""];
    } else {
      forall i | 0 <= i < |fs| ensures '&' !in fs[i] {
        assert fs[i] == pairs[i].0 + "=" + pairs[i].1;
      }
      SplitOnJoin(fs, '&');
    }
    FieldPairsOfFields(pairs);
  }

  /** Only the query component is read: the path before '?' and the fragment after '#' are ignored. */
  lemma QueryPartOf(path: string, query: string, fragment: string)
    requires '?' !in path && '#' !in path && '#' !in query
    ensures QueryPart(path + "?" + query + "#" + fragment) == query
    ensures QueryPart(path + "?" + query) == query
  {
    var u := path + "?" + query + "#" + fragment;
    assert u == (path + "?" + query) + ['#'] + fragment;
    assert '#' !in path + "?" + query;
    SplitOnceAt(path + "?" + query, '#', fragment);
    SplitOnceAt(path, '?', query);
    assert '#' !in path + "?" + query;
    var parts := SplitOnce(path + "?" + query, '#');
    assert |parts| == 1;
  }

  /** A link without a query component carries no values. */
  lemma NoQueryNoValue(url: string, key: string)
    requires '?' !in url
    ensures GetValueFromLink(url, key) == None
  {
    var before := SplitOnce(url, '#')[0];
    assert '?' !in before;
    assert ParseQsl("") == [] by { assert SplitOn("", '&') == [""]; }
  }

  /** get_value_from_link on a link built from plain pairs: the value of the last pair with that
      name, None when no pair has it; the path and fragment play no part. */
  lemma ValueFromBuiltLink(path: string, pairs: seq<(string, string)>, fragment: string, key: string)
    requires '?' !in path && '#' !in path
    requires PlainPairs(pairs)
    ensures GetValueFromLink(path + "?" + BuildQuery(pairs) + "#" + fragment, key) == LastValue(pairs, key)
  {
    var q := BuildQuery(pairs);
    assert '#' !in q by { BuildQueryNoHash(pairs); }
    QueryPartOf(path, q, fragment);
    ParseBuildQuery(pairs);
  }

  lemma {:induction false} BuildQueryNoHash(pairs: seq<(string, string)>)
    requires PlainPairs(pairs)
    ensures '#' !in BuildQuery(pairs)
  {
    if |pairs| > 1 {
      BuildQueryNoHash(pairs[1..]);
      assert Fields(pairs)[1..] == Fields(pairs[1..]);
    }
  }
}
