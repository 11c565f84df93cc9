/** The polygon token pairer: the coordinate tokens are consumed two at a time, the first of each
    pair read as a latitude and the second as a longitude. The pairing does not depend on how a
    token is read, so it is written over the two decoders. */
module Pairing {
  import opened Results

  /** How a token is read: a value, or the exception the reading raises. */
  type Decoder = string -> Result<real>

  /** One pass of the loop: the latitude token is read, then the longitude token. */
  function Vertex(lat: Decoder, lon: Decoder, latTok: string, lonTok: string): (r: Result<(real, real)>)
    ensures r.Ok? <==> lat(latTok).Ok? && lon(lonTok).Ok?
    ensures r.Ok? ==> r.value == (lat(latTok).value, lon(lonTok).value)
    ensures r.Err? ==> r.error == (if lat(latTok).Err? then lat(latTok).error else lon(lonTok).error)
  {
    var a :- lat(latTok);
    var b :- lon(lonTok);
    Ok((a, b))
  }

  /** The vertex that tokens 2k and 2k+1 make. */
  function VertexAt(lat: Decoder, lon: Decoder, tokens: seq<string>, k: nat): Result<(real, real)>
    requires 2 * k + 1 < |tokens|
  {
    Vertex(lat, lon, tokens[2 * k], tokens[2 * k + 1])
  }

  /** The tokens consumed two at a time: a lone last token is read as a latitude, and then
      fetching its partner raises `IndexError`. */
  function Pairs(lat: Decoder, lon: Decoder, tokens: seq<string>): (r: Result<seq<(real, real)>>)
    ensures r.Ok? ==> |tokens| % 2 == 0 && |r.value| == |tokens| / 2
    decreases |tokens|
  {
    if tokens == [] then Ok([])
    else if |tokens| == 1 then
      var _ :- lat(tokens[0]);
      Err(IndexError)
    else
      var v :- Vertex(lat, lon, tokens[0], tokens[1]);
      var vs :- Pairs(lat, lon, tokens[2..]);
      Ok([v] + vs)
  }

  /** Dropping the first pair moves vertex k + 1 to position k. */
  lemma ShiftPair(lat: Decoder, lon: Decoder, tokens: seq<string>, k: nat)
    requires |tokens| >= 2 && 2 * k + 1 < |tokens| - 2
    ensures VertexAt(lat, lon, tokens[2..], k) == VertexAt(lat, lon, tokens, k + 1)
  {
    assert tokens[2..][2 * k] == tokens[2 * (k + 1)];
    assert tokens[2..][2 * k + 1] == tokens[2 * (k + 1) + 1];
  }

  /** Pairing succeeds exactly when the token count is even and every pair decodes. */
  lemma {:induction false} PairsSucceed(lat: Decoder, lon: Decoder, tokens: seq<string>)
    ensures Pairs(lat, lon, tokens).Ok? <==>
      |tokens| % 2 == 0 && forall k: nat :: 2 * k + 1 < |tokens| ==> VertexAt(lat, lon, tokens, k).Ok?
    decreases |tokens|
  {
    if |tokens| >= 2 {
      var rest := tokens[2..];
      PairsSucceed(lat, lon, rest);
      forall k: nat | 2 * k + 1 < |rest| ensures VertexAt(lat, lon, rest, k) == VertexAt(lat, lon, tokens, k + 1) {
        ShiftPair(lat, lon, tokens, k);
      }
      forall k: nat | 1 <= k && 2 * k + 1 < |tokens| ensures VertexAt(lat, lon, tokens, k) == VertexAt(lat, lon, rest, k - 1) {
        ShiftPair(lat, lon, tokens, k - 1);
      }
      assert VertexAt(lat, lon, tokens, 0) == Vertex(lat, lon, tokens[0], tokens[1]);
      if !Pairs(lat, lon, tokens).Ok? && Vertex(lat, lon, tokens[0], tokens[1]).Ok? && |rest| % 2 == 0 {
        var k: nat :| 2 * k + 1 < |rest| && !VertexAt(lat, lon, rest, k).Ok?;
        assert !VertexAt(lat, lon, tokens, k + 1).Ok?;
      }
    }
  }

  /** A successful pairing has one vertex per pair, vertex k made from tokens 2k and 2k+1. */
  lemma {:induction false} PairsInOrder(lat: Decoder, lon: Decoder, tokens: seq<string>)
    requires Pairs(lat, lon, tokens).Ok?
    ensures |Pairs(lat, lon, tokens).value| == |tokens| / 2
    ensures forall k: nat :: k < |tokens| / 2 ==>
      VertexAt(lat, lon, tokens, k) == Ok(Pairs(lat, lon, tokens).value[k])
    decreases |tokens|
  {
    if tokens != [] {
      var rest := tokens[2..];
      PairsInOrder(lat, lon, rest);
      var vs := Pairs(lat, lon, tokens).value;
      assert vs == [Vertex(lat, lon, tokens[0], tokens[1]).value] + Pairs(lat, lon, rest).value;
      forall k: nat | k < |tokens| / 2 ensures VertexAt(lat, lon, tokens, k) == Ok(vs[k]) {
        if k > 0 {
          ShiftPair(lat, lon, tokens, k - 1);
        }
      }
    }
  }

  /** An odd number of tokens whose pairs all decode, and whose lone last token reads as a
      latitude, fails with `IndexError`. */
  lemma {:induction false} OddTokens(lat: Decoder, lon: Decoder, tokens: seq<string>)
    requires |tokens| % 2 == 1
    requires forall k: nat :: 2 * k + 1 < |tokens| ==> VertexAt(lat, lon, tokens, k).Ok?
    requires lat(tokens[|tokens| - 1]).Ok?
    ensures Pairs(lat, lon, tokens) == Err(IndexError)
    decreases |tokens|
  {
    if |tokens| > 1 {
      var rest := tokens[2..];
      assert VertexAt(lat, lon, tokens, 0).Ok?;
      forall k: nat | 2 * k + 1 < |rest| ensures VertexAt(lat, lon, rest, k).Ok? {
        ShiftPair(lat, lon, tokens, k);
      }
      assert rest[|rest| - 1] == tokens[|tokens| - 1];
      OddTokens(lat, lon, rest);
    }
  }

  /** With an even number of tokens the loop never reaches past the last one: whatever it raises
      was raised by a decoder on one of the tokens. */
  lemma {:induction false} EvenPairsFailInDecoder(lat: Decoder, lon: Decoder, tokens: seq<string>)
    requires |tokens| % 2 == 0
    ensures var r := Pairs(lat, lon, tokens);
      r.Err? ==> exists i :: 0 <= i < |tokens| && (lat(tokens[i]) == Err(r.error) || lon(tokens[i]) == Err(r.error))
    decreases |tokens|
  {
    var r := Pairs(lat, lon, tokens);
    if r.Err? {
      if lat(tokens[0]).Err? {
        assert lat(tokens[0]) == Err(r.error);
      } else if lon(tokens[1]).Err? {
        assert lon(tokens[1]) == Err(r.error);
      } else {
        var rest := tokens[2..];
        EvenPairsFailInDecoder(lat, lon, rest);
        var i :| 0 <= i < |rest| && (lat(rest[i]) == Err(r.error) || lon(rest[i]) == Err(r.error));
        assert rest[i] == tokens[i + 2];
      }
    }
  }

  /** The loop of `process_polygons`: `for i in range(0, len(coords_list), 2)`, reading token i
      as a latitude and token i + 1 as a longitude and appending the pair. */
  method PairUp(lat: Decoder, lon: Decoder, tokens: seq<string>) returns (r: Result<seq<(real, real)>>)
    ensures r == Pairs(lat, lon, tokens)
  {
    var pairs: seq<(real, real)> := [];
    var i := 0;
    assert tokens[0..] == tokens;
    assert Pairs(lat, lon, tokens).Ok? ==> [] + Pairs(lat, lon, tokens).value == Pairs(lat, lon, tokens).value;
    while i < |tokens|
      invariant 0 <= i <= |tokens|
      invariant Pairs(lat, lon, tokens) == Prepend(pairs, Pairs(lat, lon, tokens[i..]))
      decreases |tokens| - i
    {
      PairStep(lat, lon, tokens[i..]);
      var a := lat(tokens[i]);
      if a.Err? {
        return a.PropagateFailure();
      }
      if i + 1 >= |tokens| {
        return Err(IndexError);
      }
      var b := lon(tokens[i + 1]);
      if b.Err? {
        return b.PropagateFailure();
      }
      assert tokens[i..][2..] == tokens[i + 2..];
      ghost var rest := Pairs(lat, lon, tokens[i + 2..]);
      assert rest.Ok? ==> pairs + ([(a.value, b.value)] + rest.value) == pairs + [(a.value, b.value)] + rest.value;
      pairs := pairs + [(a.value, b.value)];
      i := i + 2;
    }
    assert pairs + [] == pairs;
    return Ok(pairs);
  }

  /** One step of the pairing, as the loop takes it. */
  lemma PairStep(lat: Decoder, lon: Decoder, tokens: seq<string>)
    requires tokens != []
    ensures lat(tokens[0]).Err? ==> Pairs(lat, lon, tokens) == Err(lat(tokens[0]).error)
    ensures lat(tokens[0]).Ok? && |tokens| == 1 ==> Pairs(lat, lon, tokens) == Err(IndexError)
    ensures lat(tokens[0]).Ok? && |tokens| >= 2 && lon(tokens[1]).Err? ==> Pairs(lat, lon, tokens) == Err(lon(tokens[1]).error)
    ensures lat(tokens[0]).Ok? && |tokens| >= 2 && lon(tokens[1]).Ok? ==>
      Pairs(lat, lon, tokens) == Prepend([(lat(tokens[0]).value, lon(tokens[1]).value)], Pairs(lat, lon, tokens[2..]))
  {
  }

  /** A pairing result with the vertices already built in front of it. */
  function Prepend(done: seq<(real, real)>, r: Result<seq<(real, real)>>): (p: Result<seq<(real, real)>>)
    ensures p.Ok? <==> r.Ok?
    ensures p.Ok? ==> p.value == done + r.value
    ensures p.Err? ==> p == r
  {
    if r.Ok? then Ok(done + r.value) else r
  }
}
