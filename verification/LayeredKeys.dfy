/** Stored integration keys under layers of encryption, and unwrapLayers. The cipher is a parameter: base64 and AES-GCM
    together, as one function that seals under a nonce and one that opens or fails. */
module LayeredKeys {
  import opened Options

  type Nonce = string

  datatype Cipher = Cipher(seal: (Nonce, string) -> string, open: string -> Option<string>)

  const PREFIX := "enc:v1:"
  const MAX_UNWRAP_LAYERS := 4

  /** Opening undoes sealing, base64 text never starts with the tag, and a sealed text is longer than what is in it. */
  ghost predicate Lawful(c: Cipher) {
    && (forall n, p :: c.open(c.seal(n, p)) == Some(p) && !IsEncrypted(c.seal(n, p)))
    && (forall s | c.open(s).Some? :: |c.open(s).value| < |s|)
  }

  /** Such a cipher exists, so what is proved of lawful ciphers is proved of something. */
  lemma LawfulCipherExists()
    ensures exists c :: Lawful(c)
  {
    var c := Cipher((n: Nonce, p: string) => "=" + p, (s: string) => if s != "" && s[0] == '=' then Some(s[1..]) else None);
    forall n: Nonce, p: string ensures c.open(c.seal(n, p)) == Some(p) && !IsEncrypted(c.seal(n, p)) {
      assert ("=" + p)[1..] == p;
    }
    assert Lawful(c);
  }

  predicate IsEncrypted(stored: string) {
    PREFIX <= stored
  }

  function Encrypt(c: Cipher, n: Nonce, plain: string): string {
    PREFIX + c.seal(n, plain)
  }

  /** With a key: a tagged value must open; an untagged one that does not open is taken as plaintext. */
  function Decrypt(c: Cipher, stored: string): Option<string> {
    if IsEncrypted(stored) then c.open(stored[|PREFIX|..])
    else if c.open(stored).Some? then c.open(stored)
    else Some(stored)
  }

  datatype Unwrapped =
    | Plain(plain: string, layers: nat)
    | Undecryptable(at: nat)
    | NoConvergence

  /** The loop from some layer on. */
  function Peel(c: Cipher, cur: string, layers: nat): Unwrapped
    requires layers <= MAX_UNWRAP_LAYERS
    decreases MAX_UNWRAP_LAYERS - layers
  {
    if layers == MAX_UNWRAP_LAYERS then NoConvergence
    else
      var next := Decrypt(c, cur);
      if next.None? then Undecryptable(layers)
      else if !IsEncrypted(cur) && next.value == cur then Plain(cur, layers)
      else Peel(c, next.value, layers + 1)
  }

  method UnwrapLayers(c: Cipher, stored: string) returns (r: Unwrapped)
    ensures r == Peel(c, stored, 0)
  {
    var cur := stored;
    var layers := 0;
    while layers < MAX_UNWRAP_LAYERS
      invariant 0 <= layers <= MAX_UNWRAP_LAYERS
      invariant Peel(c, stored, 0) == Peel(c, cur, layers)
    {
      if IsEncrypted(cur) {
        var next := Decrypt(c, cur);
        if next.None? {
          return Undecryptable(layers);
        }
        cur := next.value;
      } else {
        var next := Decrypt(c, cur);
        if next.value == cur {
          return Plain(cur, layers);
        }
        cur := next.value;
      }
      layers := layers + 1;
    }
    return NoConvergence;
  }

  // ----- layers -----

  datatype Layer = Layer(tagged: bool, nonce: Nonce)

  /** A plaintext under layers, the outermost first; an untagged layer is one written before the tag existed. */
  function Wrap(c: Cipher, plain: string, layers: seq<Layer>): string {
    if layers == [] then plain
    else (if layers[0].tagged then PREFIX else "") + c.seal(layers[0].nonce, Wrap(c, plain, layers[1..]))
  }

  /** Text no key opens. */
  predicate IsPlaintext(c: Cipher, s: string) {
    !IsEncrypted(s) && c.open(s).None?
  }

  /** Up to three layers, tagged or not, come off and leave the plaintext and their number; more are refused. */
  lemma UnwrapUndoesWrap(c: Cipher, plain: string, layers: seq<Layer>)
    requires Lawful(c) && IsPlaintext(c, plain)
    ensures Peel(c, Wrap(c, plain, layers), 0)
         == if |layers| < MAX_UNWRAP_LAYERS then Plain(plain, |layers|) else NoConvergence
  {
    PeelUndoesWrap(c, plain, layers, 0);
  }

  lemma {:induction false} PeelUndoesWrap(c: Cipher, plain: string, layers: seq<Layer>, done: nat)
    requires Lawful(c) && IsPlaintext(c, plain) && done <= MAX_UNWRAP_LAYERS
    ensures Peel(c, Wrap(c, plain, layers), done)
         == if done + |layers| < MAX_UNWRAP_LAYERS then Plain(plain, done + |layers|) else NoConvergence
    decreases |layers|
  {
    if layers != [] && done < MAX_UNWRAP_LAYERS {
      var inner := Wrap(c, plain, layers[1..]);
      OneLayerComesOff(c, layers[0], inner);
      PeelUndoesWrap(c, plain, layers[1..], done + 1);
    }
  }

  lemma OneLayerComesOff(c: Cipher, layer: Layer, inner: string)
    requires Lawful(c)
    ensures var outer := (if layer.tagged then PREFIX else "") + c.seal(layer.nonce, inner);
            Decrypt(c, outer) == Some(inner) && inner != outer && IsEncrypted(outer) == layer.tagged
  {
    var sealed := c.seal(layer.nonce, inner);
    assert c.open(sealed) == Some(inner) && |inner| < |sealed|;
    assert (PREFIX + sealed)[|PREFIX|..] == sealed;
    assert "" + sealed == sealed;
  }

  /** What comes out as plaintext is text no key opens. */
  lemma {:induction false} UnwrapEndsAtPlaintext(c: Cipher, cur: string, layers: nat)
    requires Lawful(c) && layers <= MAX_UNWRAP_LAYERS && Peel(c, cur, layers).Plain?
    ensures IsPlaintext(c, Peel(c, cur, layers).plain)
    ensures layers <= Peel(c, cur, layers).layers < MAX_UNWRAP_LAYERS
    ensures Peel(c, cur, layers).layers == layers ==> Peel(c, cur, layers).plain == cur
    decreases MAX_UNWRAP_LAYERS - layers
  {
    var next := Decrypt(c, cur);
    if IsEncrypted(cur) || next.value != cur {
      UnwrapEndsAtPlaintext(c, next.value, layers + 1);
    }
  }
}
