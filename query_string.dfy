/** The API's `String.parseQueryString()`: the query is split on `&`, each piece on `=`,
    the first two parts are key and value, and the pairs are collected into a map in order,
    so a later key overwrites an earlier one. A piece without `=` makes the destructuring
    throw; the whole parse then fails. */
module QueryString {
  import opened Wrappers
  import opened Text

  /** The part before the first `=` of a piece. */
  function PieceKey(piece: string): string {
    Split(piece, '=')[0]
  }

  /** `val (key, value) = piece.split("=")`: the first two parts, or None where the
      destructuring throws. Anything after a second `=` is dropped. */
  function KeyValue(piece: string): (r: Option<(string, string)>)
    ensures r.None? <==> '=' !in piece
    ensures r.Some? ==> r.value.0 == PieceKey(piece) && '=' !in r.value.0 && '=' !in r.value.1
  {
    SplitSeveral(piece, '=');
    SplitPiecesExcludeSeparator(piece, '=');
    var parts := Split(piece, '=');
    if |parts| < 2 then None else Some((parts[0], parts[1]))
  }

  /** `associate`: the pairs of the pieces, collected left to right. */
  function Associate(pieces: seq<string>): Option<map<string, string>>
    decreases |pieces|
  {
    if pieces == [] then Some(map[])
    else
      var front := Associate(pieces[..|pieces| - 1]);
      var last := KeyValue(pieces[|pieces| - 1]);
      if front.None? || last.None? then None
      else Some(front.value[last.value.0 := last.value.1])
  }

  function ParseQueryString(query: string): Option<map<string, string>> {
    Associate(Split(query, '&'))
  }

  /** The parse fails exactly when some piece has no `=`. */
  lemma {:induction false} AssociateFails(pieces: seq<string>)
    ensures Associate(pieces).None? <==> exists k :: 0 <= k < |pieces| && '=' !in pieces[k]
    decreases |pieces|
  {
    if pieces != [] {
      var front := pieces[..|pieces| - 1];
      AssociateFails(front);
      if Associate(pieces).None? && KeyValue(pieces[|pieces| - 1]).Some? {
        var k :| 0 <= k < |front| && '=' !in front[k];
        assert pieces[k] == front[k];
      }
      if Associate(pieces).Some? {
        forall k | 0 <= k < |pieces| ensures '=' in pieces[k] {
          if k < |front| {
            assert pieces[k] == front[k];
          }
        }
      }
    }
  }

  /** The keys are those of the pieces. */
  lemma {:induction false} AssociateKeys(pieces: seq<string>)
    requires Associate(pieces).Some?
    ensures forall key :: key in Associate(pieces).value <==> exists k :: 0 <= k < |pieces| && PieceKey(pieces[k]) == key
    decreases |pieces|
  {
    if pieces != [] {
      var n := |pieces| - 1;
      var front := pieces[..n];
      var m := Associate(pieces).value;
      AssociateKeys(front);
      assert m == Associate(front).value[PieceKey(pieces[n]) := KeyValue(pieces[n]).value.1];
      forall key ensures key in m <==> exists k :: 0 <= k < |pieces| && PieceKey(pieces[k]) == key {
        if key in Associate(front).value {
          var k :| 0 <= k < |front| && PieceKey(front[k]) == key;
          assert pieces[k] == front[k];
        }
        if exists k :: 0 <= k < |pieces| && PieceKey(pieces[k]) == key {
          var k :| 0 <= k < |pieces| && PieceKey(pieces[k]) == key;
          if k < n {
            assert front[k] == pieces[k];
          }
        }
      }
    }
  }

  /** Each key holds the value of the last piece that names it. */
  lemma {:induction false} AssociateLastWins(pieces: seq<string>)
    requires Associate(pieces).Some?
    ensures forall k | 0 <= k < |pieces| && KeyValue(pieces[k]).Some? &&
                       (forall j :: k < j < |pieces| ==> PieceKey(pieces[j]) != PieceKey(pieces[k])) ::
              PieceKey(pieces[k]) in Associate(pieces).value &&
              Associate(pieces).value[PieceKey(pieces[k])] == KeyValue(pieces[k]).value.1
    decreases |pieces|
  {
    if pieces != [] {
      var n := |pieces| - 1;
      var front := pieces[..n];
      var m := Associate(pieces).value;
      AssociateLastWins(front);
      assert m == Associate(front).value[PieceKey(pieces[n]) := KeyValue(pieces[n]).value.1];
      forall k | 0 <= k < |pieces| && KeyValue(pieces[k]).Some? &&
                 (forall j :: k < j < |pieces| ==> PieceKey(pieces[j]) != PieceKey(pieces[k]))
        ensures PieceKey(pieces[k]) in m && m[PieceKey(pieces[k])] == KeyValue(pieces[k]).value.1
      {
        if k < n {
          assert front[k] == pieces[k];
          assert PieceKey(pieces[n]) != PieceKey(pieces[k]);
          forall j | k < j < |front| ensures PieceKey(front[j]) != PieceKey(front[k]) {
            assert front[j] == pieces[j];
          }
        }
      }
    }
  }

  /** Some piece has no `=`. */
  predicate SomePieceLacksEquals(pieces: seq<string>) {
    exists k :: 0 <= k < |pieces| && '=' !in pieces[k]
  }

  /** Some piece has the key before its first `=`. */
  predicate SomePieceNames(pieces: seq<string>, key: string) {
    exists k :: 0 <= k < |pieces| && PieceKey(pieces[k]) == key
  }

  /** Piece k names the key, and no later piece does. */
  predicate LastPieceNaming(pieces: seq<string>, key: string, k: int) {
    0 <= k < |pieces| && PieceKey(pieces[k]) == key &&
    forall j :: k < j < |pieces| ==> PieceKey(pieces[j]) != key
  }

  /** What looking a key up in the collected pieces gives: the collection fails exactly when
      some piece has no `=`; otherwise the key is there exactly when some piece names it, and
      it holds the value of the last piece that does. */
  lemma LookupCases(pieces: seq<string>, key: string)
    ensures Associate(pieces).None? <==> SomePieceLacksEquals(pieces)
    ensures Associate(pieces).Some? ==> (key in Associate(pieces).value <==> SomePieceNames(pieces, key))
    ensures Associate(pieces).Some? && key in Associate(pieces).value ==>
              forall k | LastPieceNaming(pieces, key, k) ::
                KeyValue(pieces[k]) == Some((key, Associate(pieces).value[key]))
  {
    AssociateFails(pieces);
    if Associate(pieces).Some? {
      var params := Associate(pieces).value;
      AssociateKeys(pieces);
      AssociateLastWins(pieces);
      forall k | LastPieceNaming(pieces, key, k)
        ensures KeyValue(pieces[k]) == Some((key, params[key]))
      {
        assert '=' in pieces[k];
        var kv := KeyValue(pieces[k]).value;
        assert kv.0 == key && params[key] == kv.1;
      }
    }
  }

  // ----- the inverse: building a query from pairs -----

  /** A key or value that can be written into a query as it is. */
  predicate Bare(s: string) {
    '&' !in s && '=' !in s
  }

  function PairText(kv: (string, string)): string {
    kv.0 + "=" + kv.1
  }

  function PairTexts(pairs: seq<(string, string)>): (r: seq<string>)
    ensures |r| == |pairs| && forall k :: 0 <= k < |pairs| ==> r[k] == PairText(pairs[k])
  {
    if pairs == [] then [] else [PairText(pairs[0])] + PairTexts(pairs[1..])
  }

  /** `key1=value1&key2=value2&...` */
  function BuildQuery(pairs: seq<(string, string)>): string {
    Join(PairTexts(pairs), "&")
  }

  lemma PairReadsBack(kv: (string, string))
    requires Bare(kv.0) && Bare(kv.1)
    ensures '&' !in PairText(kv)
    ensures PieceKey(PairText(kv)) == kv.0 && KeyValue(PairText(kv)) == Some(kv)
  {
    SplitAppend(kv.0, kv.1, '=');
    SplitWithoutSeparator(kv.0, '=');
    SplitWithoutSeparator(kv.1, '=');
    assert kv.0 + "=" + kv.1 == kv.0 + ['='] + kv.1;
  }

  /** The pieces of a built query are the pairs' texts, each reading back as its pair. */
  lemma BuiltQueryPieces(pairs: seq<(string, string)>)
    requires pairs != []
    requires forall k :: 0 <= k < |pairs| ==> Bare(pairs[k].0) && Bare(pairs[k].1)
    ensures Split(BuildQuery(pairs), '&') == PairTexts(pairs)
    ensures forall k :: 0 <= k < |pairs| ==>
              PieceKey(PairTexts(pairs)[k]) == pairs[k].0 && KeyValue(PairTexts(pairs)[k]) == Some(pairs[k])
  {
    var pieces := PairTexts(pairs);
    forall k | 0 <= k < |pairs|
      ensures '&' !in pieces[k] && PieceKey(pieces[k]) == pairs[k].0 && KeyValue(pieces[k]) == Some(pairs[k])
    {
      PairReadsBack(pairs[k]);
    }
    SplitJoin(pieces, '&');
  }

  /** A query built from pairs parses back: its keys are the pairs' keys, and each key holds
      the value of the last pair that names it. */
  lemma ParseBuiltQuery(pairs: seq<(string, string)>)
    requires pairs != []
    requires forall k :: 0 <= k < |pairs| ==> Bare(pairs[k].0) && Bare(pairs[k].1)
    ensures ParseQueryString(BuildQuery(pairs)).Some?
    ensures forall key :: key in ParseQueryString(BuildQuery(pairs)).value <==>
              exists k :: 0 <= k < |pairs| && pairs[k].0 == key
    ensures forall k | 0 <= k < |pairs| && (forall j :: k < j < |pairs| ==> pairs[j].0 != pairs[k].0) ::
              pairs[k].0 in ParseQueryString(BuildQuery(pairs)).value &&
              ParseQueryString(BuildQuery(pairs)).value[pairs[k].0] == pairs[k].1
  {
    var pieces := PairTexts(pairs);
    BuiltQueryPieces(pairs);
    assert ParseQueryString(BuildQuery(pairs)) == Associate(pieces);
    AssociateFails(pieces);
    PiecesOfPairs(pairs, pieces);
  }

  /** Pieces that read back as the pairs collect into the pairs' map. */
  lemma PiecesOfPairs(pairs: seq<(string, string)>, pieces: seq<string>)
    requires |pieces| == |pairs|
    requires forall k :: 0 <= k < |pairs| ==> PieceKey(pieces[k]) == pairs[k].0 && KeyValue(pieces[k]) == Some(pairs[k])
    requires Associate(pieces).Some?
    ensures forall key :: key in Associate(pieces).value <==> exists k :: 0 <= k < |pairs| && pairs[k].0 == key
    ensures forall k | 0 <= k < |pairs| && (forall j :: k < j < |pairs| ==> pairs[j].0 != pairs[k].0) ::
              pairs[k].0 in Associate(pieces).value && Associate(pieces).value[pairs[k].0] == pairs[k].1
  {
    PiecesOfPairsKeys(pairs, pieces);
    AssociateLastWins(pieces);
    forall k | 0 <= k < |pairs| && (forall j :: k < j < |pairs| ==> pairs[j].0 != pairs[k].0)
      ensures pairs[k].0 in Associate(pieces).value && Associate(pieces).value[pairs[k].0] == pairs[k].1
    {
      assert forall j :: k < j < |pieces| ==> PieceKey(pieces[j]) != PieceKey(pieces[k]);
    }
  }

  lemma PiecesOfPairsKeys(pairs: seq<(string, string)>, pieces: seq<string>)
    requires |pieces| == |pairs|
    requires forall k :: 0 <= k < |pairs| ==> PieceKey(pieces[k]) == pairs[k].0
    requires Associate(pieces).Some?
    ensures forall key :: key in Associate(pieces).value <==> exists k :: 0 <= k < |pairs| && pairs[k].0 == key
  {
    AssociateKeys(pieces);
    forall k | 0 <= k < |pairs| ensures pairs[k].0 in Associate(pieces).value {
      assert PieceKey(pieces[k]) == pairs[k].0;
    }
  }

  /** An empty query and a trailing `&` leave an empty piece, which has no `=`. */
  lemma EmptyPieceThrows()
    ensures ParseQueryString("").None?
    ensures ParseQueryString("playerId=p&").None?
  {
    AssociateFails(Split("", '&'));
    var q := "playerId=p&";
    SplitAppend("playerId=p", "", '&');
    assert q == "playerId=p" + ['&'] + "";
    AssociateFails(Split(q, '&'));
    var pieces := Split(q, '&');
    assert pieces[|pieces| - 1] == "";
  }

  /** A value holding `=` is cut at it: what follows the second `=` is lost. */
  lemma ValueCutAtEquals(key: string, value: string, rest: string)
    requires Bare(key) && Bare(value) && '&' !in rest
    ensures ParseQueryString(key + "=" + value + "=" + rest) == Some(map[key := value])
  {
    var piece := key + "=" + value + "=" + rest;
    assert piece == key + ['='] + (value + ['='] + rest);
    SplitWithoutSeparator(piece, '&');
    SplitAppend(key, value + ['='] + rest, '=');
    SplitAppend(value, rest, '=');
    SplitWithoutSeparator(key, '=');
    SplitWithoutSeparator(value, '=');
    assert Split(piece, '=')[..2] == [key, value];
    assert KeyValue(piece) == Some((key, value));
    var pieces := [piece];
    assert Split(key + "=" + value + "=" + rest, '&') == pieces;
    assert pieces[..0] == [];
    assert Associate(pieces) == Some(map[][key := value]);
  }
}
