/**
 * The query suffix of a HEOS command line: an ordered list of `(key, value)`
 * pairs rendered as `?k1=v1&k2=v2...`, or as nothing at all when the list is
 * empty. Pairs are emitted in input order, never escaped and never merged.
 */
module Attributes {
  import opened Wrappers
  import opened Text

  /** One `(key, value)` pair. */
  type Attribute = (string, string)

  /** The text of one pair, `key=value`. */
  function Piece(kv: Attribute): string {
    kv.0 + "=" + kv.1
  }

  /** The `map` step: one piece per pair, in input order. */
  function Pieces(attrs: seq<Attribute>): seq<string> {
    seq(|attrs|, i requires 0 <= i < |attrs| => Piece(attrs[i]))
  }

  lemma PiecesOf(attrs: seq<Attribute>)
    requires |attrs| <= 2
    ensures |attrs| == 1 ==> Pieces(attrs) == [attrs[0].0 + "=" + attrs[0].1]
    ensures |attrs| == 2 ==> Pieces(attrs) == [attrs[0].0 + "=" + attrs[0].1, attrs[1].0 + "=" + attrs[1].1]
  {
  }

  /** Joining a piece in front of a list of pieces. */
  lemma JoinCons(x: string, xs: seq<string>, sep: string)
    ensures Join([x] + xs, sep) == if |xs| == 0 then x else x + sep + Join(xs, sep)
  {
    assert ([x] + xs)[1..] == xs;
  }

  /**
   * The body of the `reduce`: fold the remaining pieces into the accumulator,
   * each step building `prev&next`. The left fold yields the same text as the
   * right-nested `Join`.
   */
  function FoldPieces(acc: string, rest: seq<string>): (r: string)
    ensures r == Join([acc] + rest, "&")
    decreases |rest|
  {
    if |rest| == 0 then acc
    else
      var r := FoldPieces(acc + "&" + rest[0], rest[1..]);
      JoinCons(acc + "&" + rest[0], rest[1..], "&");
      JoinCons(rest[0], rest[1..], "&");
      JoinCons(acc, rest, "&");
      assert [rest[0]] + rest[1..] == rest;
      r
  }

  /**
   * `Iterator::reduce` over the pieces: `None` exactly for no pieces, otherwise
   * the pieces separated by `&` in input order.
   */
  function Reduce(pieces: seq<string>): (r: Option<string>)
    ensures r.None? <==> |pieces| == 0
    ensures r.Some? ==> r.value == Join(pieces, "&")
  {
    if |pieces| == 0 then None
    else
      assert [pieces[0]] + pieces[1..] == pieces;
      Some(FoldPieces(pieces[0], pieces[1..]))
  }

  /**
   * `attributes_from`: the empty string for no pairs; otherwise `?` followed by
   * the `key=value` pieces joined with `&`, in input order. The `None` arm of
   * the match is only reached for an empty list, which the first branch takes.
   */
  function AttributesFrom(attrs: seq<Attribute>): (r: string)
    ensures r == "" <==> |attrs| == 0
    ensures |attrs| > 0 ==> r == "?" + Join(Pieces(attrs), "&")
  {
    if |attrs| == 0 then ""
    else
      match Reduce(Pieces(attrs))
      case Some(result) => "?" + result
      case None => ""
  }

  /** `to_heos_attrs` on a slice of pairs: wraps `attributes_from` and never fails. */
  function ToHeosAttrs(attrs: seq<Attribute>): (r: Result<string, string>)
    ensures r.Success?
    ensures r.value == AttributesFrom(attrs)
  {
    Success(AttributesFrom(attrs))
  }

  /**
   * Appending one pair extends the rendering: after a `?` when it is the only
   * pair, after a `&` otherwise; everything rendered before is kept as it was.
   */
  lemma AttributesSnoc(attrs: seq<Attribute>, kv: Attribute)
    ensures AttributesFrom(attrs + [kv])
         == (if |attrs| == 0 then "?" else AttributesFrom(attrs) + "&") + kv.0 + "=" + kv.1
  {
    assert Pieces(attrs + [kv]) == Pieces(attrs) + [Piece(kv)];
    if |attrs| > 0 {
      JoinSnoc(Pieces(attrs), Piece(kv), "&");
    } else {
      assert Pieces(attrs) + [Piece(kv)] == [Piece(kv)];
    }
  }

  /** The pairs can be read back from their rendering: no key holds `&` or `=`, no value holds `&`. */
  predicate Unambiguous(attrs: seq<Attribute>) {
    forall i :: 0 <= i < |attrs| ==> '&' !in attrs[i].0 && '=' !in attrs[i].0 && '&' !in attrs[i].1
  }

  /** Reads one `key=value` piece back, cutting at its first `=`. */
  function ParsePiece(p: string): Option<Attribute> {
    match IndexOf(p, "=")
    case None => None
    case Some(k) => Some((p[..k], p[k + 1..]))
  }

  function ParsePieces(ps: seq<string>): Option<seq<Attribute>> {
    if |ps| == 0 then Some([])
    else
      match ParsePiece(ps[0])
      case None => None
      case Some(kv) =>
        match ParsePieces(ps[1..])
        case None => None
        case Some(rest) => Some([kv] + rest)
  }

  /**
   * Reads a query suffix back into its pairs: the empty string is no pairs, a
   * leading `?` introduces `&`-separated `key=value` pieces.
   */
  function ParseQuery(q: string): Option<seq<Attribute>> {
    if q == "" then Some([])
    else if q[0] == '?' then ParsePieces(Split(q[1..], "&"))
    else None
  }

  lemma ParsePieceOf(kv: Attribute)
    requires '=' !in kv.0
    ensures ParsePiece(Piece(kv)) == Some(kv)
  {
    var p := Piece(kv);
    assert p[|kv.0|..|kv.0| + 1] == "=";
    forall j | 0 <= j < |kv.0| ensures p[j] != '=' {
      assert p[j] == kv.0[j];
    }
    IndexOfIs(p, "=", |kv.0|);
    assert p[..|kv.0|] == kv.0;
    assert p[|kv.0| + 1..] == kv.1;
  }

  lemma {:induction false} ParsePiecesOf(attrs: seq<Attribute>)
    requires forall i :: 0 <= i < |attrs| ==> '=' !in attrs[i].0
    ensures ParsePieces(Pieces(attrs)) == Some(attrs)
  {
    if |attrs| > 0 {
      ParsePieceOf(attrs[0]);
      assert Pieces(attrs)[1..] == Pieces(attrs[1..]);
      ParsePiecesOf(attrs[1..]);
      assert [attrs[0]] + attrs[1..] == attrs;
    }
  }

  /**
   * Round trip: when no key holds `&` or `=` and no value holds `&`, reading the
   * rendered suffix back yields exactly the input pairs, in order, none dropped
   * and none merged.
   */
  lemma AttributesRoundTrip(attrs: seq<Attribute>)
    requires Unambiguous(attrs)
    ensures ParseQuery(AttributesFrom(attrs)) == Some(attrs)
  {
    if |attrs| > 0 {
      var ps := Pieces(attrs);
      forall i | 0 <= i < |ps| ensures "&"[0] !in ps[i] {
        assert ps[i] == attrs[i].0 + "=" + attrs[i].1;
      }
      SplitJoin(ps, "&");
      var q := AttributesFrom(attrs);
      assert q[1..] == Join(ps, "&");
      ParsePiecesOf(attrs);
    }
  }

  /**
   * Nothing is escaped: a value holding `&` and `=` renders exactly like two
   * separate pairs, which is why the round trip needs `Unambiguous`.
   */
  lemma NoEscaping()
    ensures AttributesFrom([("a", "b&c=d")]) == AttributesFrom([("a", "b"), ("c", "d")])
  {
    PiecesOf([("a", "b&c=d")]);
    PiecesOf([("a", "b"), ("c", "d")]);
  }

  function AmpCount(s: string): nat {
    multiset(s)['&']
  }

  lemma {:induction false} JoinAmpCount(xs: seq<string>)
    requires |xs| > 0
    requires forall i :: 0 <= i < |xs| ==> '&' !in xs[i]
    ensures AmpCount(Join(xs, "&")) == |xs| - 1
  {
    if |xs| > 1 {
      JoinAmpCount(xs[1..]);
      assert Join(xs, "&") == xs[0] + "&" + Join(xs[1..], "&");
      assert multiset(xs[0])['&'] == 0;
    } else {
      assert multiset(xs[0])['&'] == 0;
    }
  }

  /**
   * For n >= 1 pairs whose keys and values hold no `&`, the rendering holds
   * exactly n - 1 `&` separators.
   */
  lemma SeparatorCount(attrs: seq<Attribute>)
    requires |attrs| > 0
    requires forall i :: 0 <= i < |attrs| ==> '&' !in attrs[i].0 && '&' !in attrs[i].1
    ensures AmpCount(AttributesFrom(attrs)) == |attrs| - 1
  {
    var ps := Pieces(attrs);
    forall i | 0 <= i < |ps| ensures '&' !in ps[i] {
      assert ps[i] == attrs[i].0 + "=" + attrs[i].1;
    }
    JoinAmpCount(ps);
    assert AttributesFrom(attrs) == "?" + Join(ps, "&");
    assert multiset("?")['&'] == 0;
  }

  /** The rendering of the unit tests' inputs. */
  lemma RenderingExamples()
    ensures AttributesFrom([]) == ""
    ensures AttributesFrom([("pid", "5")]) == "?pid=5"
    ensures AttributesFrom([("pid", "5"), ("v", "1")]) == "?pid=5&v=1"
  {
    PiecesOf([("pid", "5")]);
    PiecesOf([("pid", "5"), ("v", "1")]);
  }
}
