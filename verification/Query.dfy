/**
 * Query-string handling of the web server: ParseParams fills a table from
 * "k1=v1&k2=v2" text, HasKey looks a key up in that table. The .NET
 * Hashtable becomes a map from string keys to string values.
 */
module Query {
  import opened Text

  /** A segment contributes an entry only when it splits on '=' into exactly two pieces. */
  predicate IsPair(segment: string)
  {
    |Split(segment, '=')| == 2
  }

  function KeyOf(segment: string): string
    requires IsPair(segment)
  {
    Split(segment, '=')[0]
  }

  function ValueOf(segment: string): string
    requires IsPair(segment)
  {
    Split(segment, '=')[1]
  }

  /** One step of the fill loop: a pair overwrites its key, anything else is skipped. */
  function Add(table: map<string, string>, segment: string): map<string, string>
  {
    if IsPair(segment) then table[KeyOf(segment) := ValueOf(segment)] else table
  }

  /** The table built from the segments, in order. */
  function TableOf(segments: seq<string>): map<string, string>
  {
    if segments == [] then map[]
    else Add(TableOf(segments[..|segments| - 1]), segments[|segments| - 1])
  }

  /** The table ParseParams builds from a query string. */
  function QueryTable(query: string): map<string, string>
  {
    TableOf(Split(query, '&'))
  }

  /** Program.ParseParams: split on '&', then keep every segment that splits on '=' into two. */
  method ParseParams(query: string) returns (table: map<string, string>)
    ensures table == QueryTable(query)
  {
    table := map[];
    var pairs := Split(query, '&');
    var i := 0;
    while i < |pairs|
      invariant 0 <= i <= |pairs|
      invariant table == TableOf(pairs[..i])
    {
      var nv := Split(pairs[i], '=');
      if |nv| == 2 {
        table := table[nv[0] := nv[1]];
      }
      assert pairs[..i + 1][..i] == pairs[..i];
      i := i + 1;
    }
    assert pairs[..i] == pairs;
  }

  /** Program.HasKey: a scan over the keys that stops at the first exact match. */
  method HasKey(table: map<string, string>, key: string) returns (found: bool)
    ensures found <==> key in table
  {
    var keys := table.Keys;
    while keys != {}
      invariant keys <= table.Keys
      invariant key in table ==> key in keys
      decreases keys
    {
      var k :| k in keys;
      if k == key {
        return true;
      }
      keys := keys - {k};
    }
    return false;
  }

  /** A segment is a pair exactly when it holds a single '='. */
  lemma PairIffOneEquals(segment: string)
    ensures IsPair(segment) <==> Count(segment, '=') == 1
  {
  }

  /** A pair is its key, '=', and its value, neither of which holds '='. */
  lemma PairShape(segment: string)
    requires IsPair(segment)
    ensures segment == KeyOf(segment) + "=" + ValueOf(segment)
    ensures '=' !in KeyOf(segment) && '=' !in ValueOf(segment)
  {
    JoinSplit(segment, '=');
    var parts := Split(segment, '=');
    assert Join(parts[1..], '=') == parts[1];
  }

  /** Conversely "k=v" is a pair with key k and value v when neither holds '='. */
  lemma MakePair(k: string, v: string)
    requires '=' !in k && '=' !in v
    ensures IsPair(k + "=" + v) && KeyOf(k + "=" + v) == k && ValueOf(k + "=" + v) == v
  {
    SplitJoin([k, v], '=');
    assert Join([k, v], '=') == k + "=" + v by {
      assert [k, v][1..] == [v];
    }
  }

  /** The empty query yields the empty table. */
  lemma EmptyQuery()
    ensures QueryTable("") == map[]
  {
    assert Split("", '&') == [""];
    assert Split("", '=') == [""];
  }

  /** Appending "&<segment>" to a query is one more step of the fill loop. */
  lemma QueryAppend(query: string, segment: string)
    requires '&' !in segment
    ensures QueryTable(query + "&" + segment) == Add(QueryTable(query), segment)
  {
    SplitSnoc(query, segment, '&');
    var ps := Split(query, '&') + [segment];
    assert query + "&" + segment == query + ['&'] + segment;
    assert ps[..|ps| - 1] == Split(query, '&');
  }

  /** A later pair overwrites whatever an earlier one left under its key. */
  lemma LaterPairWins(query: string, k: string, v: string)
    requires '&' !in k && '=' !in k && '&' !in v && '=' !in v
    ensures QueryTable(query + "&" + k + "=" + v) == QueryTable(query)[k := v]
  {
    MakePair(k, v);
    assert query + "&" + k + "=" + v == query + "&" + (k + "=" + v);
    QueryAppend(query, k + "=" + v);
  }

  /** A key is in the table exactly when some pair segment carries it. */
  lemma {:induction false} TableKeys(segments: seq<string>, k: string)
    ensures k in TableOf(segments) <==>
      exists i :: 0 <= i < |segments| && IsPair(segments[i]) && KeyOf(segments[i]) == k
  {
    if segments != [] {
      var n := |segments| - 1;
      var init := segments[..n];
      TableKeys(init, k);
      if k in TableOf(segments) && !(IsPair(segments[n]) && KeyOf(segments[n]) == k) {
        var i :| 0 <= i < |init| && IsPair(init[i]) && KeyOf(init[i]) == k;
        assert segments[i] == init[i];
      }
      if exists i :: 0 <= i < |segments| && IsPair(segments[i]) && KeyOf(segments[i]) == k {
        var i :| 0 <= i < |segments| && IsPair(segments[i]) && KeyOf(segments[i]) == k;
        if i < n {
          assert init[i] == segments[i];
        }
      }
    }
  }

  /** The last pair segment carrying a key decides its value: later duplicates overwrite earlier ones. */
  lemma {:induction false} TableLastWins(segments: seq<string>, i: nat)
    requires i < |segments| && IsPair(segments[i])
    requires forall j :: i < j < |segments| ==> !(IsPair(segments[j]) && KeyOf(segments[j]) == KeyOf(segments[i]))
    ensures KeyOf(segments[i]) in TableOf(segments)
    ensures TableOf(segments)[KeyOf(segments[i])] == ValueOf(segments[i])
  {
    var n := |segments| - 1;
    if i < n {
      var init := segments[..n];
      assert init[i] == segments[i];
      forall j | i < j < |init|
        ensures !(IsPair(init[j]) && KeyOf(init[j]) == KeyOf(init[i]))
      {
        assert init[j] == segments[j];
      }
      TableLastWins(init, i);
    }
  }
}
