/** The hash chain behind the audit log, for an arbitrary digest function.

    Every link hashes its own text, a delimiter, and the previous chain value.  Nothing is
    assumed of the digest beyond the shape of its output: each theorem ends in "or here are
    two different inputs with the same digest". */
module HashChain {
  import opened Text

  const GENESIS := "genesis"
  const HEX_DIGITS := "0123456789abcdef"

  predicate IsDigest(d: string) {
    |d| == 64 && forall i :: 0 <= i < |d| ==> d[i] in HEX_DIGITS
  }

  ghost predicate DigestShaped(h: string -> string) {
    forall s :: IsDigest(h(s))
  }

  /** The chain value after hashing `bodies` in order. */
  function ChainVal(h: string -> string, bodies: seq<string>): string {
    if bodies == [] then GENESIS
    else
      var n := |bodies| - 1;
      h(bodies[n] + "|" + ChainVal(h, bodies[..n]))
  }

  /** Every text that was hashed to reach `ChainVal(h, bodies)`. */
  function InputSet(h: string -> string, bodies: seq<string>): set<string> {
    if bodies == [] then {}
    else
      var n := |bodies| - 1;
      InputSet(h, bodies[..n]) + {bodies[n] + "|" + ChainVal(h, bodies[..n])}
  }

  ghost predicate Collides(h: string -> string, inputs: set<string>) {
    exists x, y :: x in inputs && y in inputs && x != y && h(x) == h(y)
  }

  lemma ChainSnoc(h: string -> string, bodies: seq<string>, body: string)
    ensures ChainVal(h, bodies + [body]) == h(body + "|" + ChainVal(h, bodies))
    ensures InputSet(h, bodies + [body]) == InputSet(h, bodies) + {body + "|" + ChainVal(h, bodies)}
  {
    assert (bodies + [body])[..|bodies|] == bodies;
  }

  lemma ChainValShape(h: string -> string, bodies: seq<string>)
    requires DigestShaped(h)
    ensures bodies == [] ==> ChainVal(h, bodies) == GENESIS
    ensures bodies != [] ==> IsDigest(ChainVal(h, bodies))
    ensures '|' !in ChainVal(h, bodies)
    ensures ChainVal(h, bodies) == GENESIS <==> bodies == []
  {
    if bodies != [] {
      var d := ChainVal(h, bodies);
      assert IsDigest(d);
      assert forall i :: 0 <= i < |d| ==> d[i] in HEX_DIGITS && d[i] != '|';
    }
  }

  /** Two chains that end in the same value hashed the same texts in the same order, or the
      texts they hashed contain a collision. */
  lemma {:induction false} ChainBinding(h: string -> string, a: seq<string>, b: seq<string>)
    requires DigestShaped(h)
    requires ChainVal(h, a) == ChainVal(h, b)
    ensures a == b || Collides(h, InputSet(h, a) + InputSet(h, b))
    decreases |a|
  {
    ChainValShape(h, a);
    ChainValShape(h, b);
    if a == [] {
    } else {
      var m, n := |a| - 1, |b| - 1;
      var v, w := ChainVal(h, a[..m]), ChainVal(h, b[..n]);
      var x, y := a[m] + "|" + v, b[n] + "|" + w;
      assert x in InputSet(h, a) && y in InputSet(h, b) && h(x) == h(y);
      if x == y {
        LinkBinding(h, a[..m], a[m], b[..n], b[n]);
        ChainBinding(h, a[..m], b[..n]);
        assert a == a[..m] + [a[m]] && b == b[..n] + [b[n]];
      }
    }
  }

  /** Equal hash inputs name the same text and the same previous chain value: the value is what
      follows the last delimiter. */
  lemma LinkBinding(h: string -> string, a: seq<string>, x: string, b: seq<string>, y: string)
    requires DigestShaped(h)
    requires x + "|" + ChainVal(h, a) == y + "|" + ChainVal(h, b)
    ensures x == y && ChainVal(h, a) == ChainVal(h, b)
  {
    ChainValShape(h, a);
    ChainValShape(h, b);
    CutLast('|', x, ChainVal(h, a), y, ChainVal(h, b));
  }

  lemma {:induction false} InputSetPrefix(h: string -> string, bodies: seq<string>, k: nat)
    requires k <= |bodies|
    ensures InputSet(h, bodies[..k]) <= InputSet(h, bodies)
    decreases |bodies|
  {
    if k == |bodies| {
      assert bodies[..k] == bodies;
    } else {
      var n := |bodies| - 1;
      InputSetPrefix(h, bodies[..n], k);
      assert bodies[..n][..k] == bodies[..k];
    }
  }

  /** Chain values never repeat along one chain, unless its texts contain a collision. */
  lemma ChainNeverRepeats(h: string -> string, bodies: seq<string>, i: nat, j: nat)
    requires DigestShaped(h)
    requires i < j <= |bodies|
    ensures ChainVal(h, bodies[..i]) != ChainVal(h, bodies[..j]) || Collides(h, InputSet(h, bodies))
  {
    if ChainVal(h, bodies[..i]) == ChainVal(h, bodies[..j]) {
      ChainBinding(h, bodies[..i], bodies[..j]);
      InputSetPrefix(h, bodies, i);
      InputSetPrefix(h, bodies, j);
      assert |bodies[..i]| != |bodies[..j]|;
    }
  }
}
