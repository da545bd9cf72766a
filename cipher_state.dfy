/** The stored state of the cipher and its three transitions (selecting an
    image, transforming, reverting) as functions on values. The class in
    pixel_cipher.dfy carries out the same transitions step by step. */
module CipherState {
  import opened Wrappers
  import opened Pixels
  import opened WebCrypto
  import opened VisualCipher

  /** The fields of the cipher object the transitions read and write:
      both image buffers, the stored nonce and ciphertext, the
      transformed flag and the `disabled` flags of the two buttons. */
  datatype State = State(
    original: Option<ImageData>,
    current: Option<ImageData>,
    iv: Option<Nonce>,
    encrypted: Option<seq<byte>>,
    transformed: bool,
    transformDisabled: bool,
    revertDisabled: bool)

  predicate SameSize(a: ImageData, b: ImageData) {
    a.width == b.width && a.height == b.height
  }

  /** What every reachable state satisfies: both images are present or
      both absent, are well-formed and have the same dimensions, and the
      transformed flag is only set while a nonce and a ciphertext are stored. */
  predicate Consistent(s: State) {
    && (s.original.Some? <==> s.current.Some?)
    && (s.current.Some? ==>
          WellFormed(s.current.value) && WellFormed(s.original.value)
          && SameSize(s.current.value, s.original.value))
    && (s.transformed ==> s.iv.Some? && s.encrypted.Some?)
  }

  /** The state right after construction; the transform button's initial
      `disabled` attribute comes from the page markup. */
  function Initial(transformDisabled: bool): (s: State)
    ensures Consistent(s)
    ensures s.original.None? && s.current.None? && s.iv.None? && s.encrypted.None?
    ensures !s.transformed && s.revertDisabled && s.transformDisabled == transformDisabled
  {
    State(None, None, None, None, false, transformDisabled, true)
  }

  /** Selecting a file and the image's load handler, taken as one step: no
      file does nothing; otherwise both buttons are enabled and the
      transformed flag cleared, and when the canvas can read the pixels
      back both images become the decoded pixels. Nonce and ciphertext
      are kept. */
  function LoadStep(s: State, file: Option<Bitmap>): (t: State)
    ensures file.None? ==> t == s
    ensures file.Some? ==> !t.transformDisabled && !t.revertDisabled && !t.transformed
    ensures file.Some? && file.value.width > 0 && file.value.height > 0 ==>
              var loaded := ImageData(file.value.pixels, file.value.width, file.value.height);
              t.original == Some(loaded) && t.current == Some(loaded)
    ensures file.Some? && (file.value.width == 0 || file.value.height == 0) ==>
              t.original == s.original && t.current == s.current
    ensures t.iv == s.iv && t.encrypted == s.encrypted
    ensures Consistent(s) ==> Consistent(t)
  {
    match file
    case None => s
    case Some(bitmap) =>
      var selected := s.(transformDisabled := false, revertDisabled := false, transformed := false);
      match GetImageData(bitmap)
      case None => selected
      case Some(loaded) => selected.(original := Some(loaded), current := Some(loaded))
  }

  /** `transformImage` with the password `secretKey` and the freshly drawn
      nonce `iv`. Without a current image or with an empty password nothing
      changes. Otherwise the nonce is stored before encrypting; a failed
      encryption stops there, with only the nonce changed. On success the
      ciphertext is stored and, when the current image is well-formed (so
      the ImageData constructor accepts its visual rendering), the current
      image becomes the visual rendering of the ciphertext with the same
      dimensions, transform is disabled, revert enabled and the transformed
      flag set. */
  function TransformStep(s: State, crypto: Crypto, secretKey: string, iv: Nonce): (t: State)
    ensures s.current.None? || |secretKey| == 0 ==> t == s
    ensures s.current.Some? && |secretKey| > 0 ==> t.iv == Some(iv)
    ensures t.original == s.original
    ensures s.current.Some? && |secretKey| > 0
            && crypto.encrypt(GenerateKey(crypto, secretKey), iv, s.current.value.data).None? ==>
              t == s.(iv := Some(iv))
    ensures s.current.Some? && |secretKey| > 0
            && crypto.encrypt(GenerateKey(crypto, secretKey), iv, s.current.value.data).Some? ==>
              var image := s.current.value;
              var encrypted := crypto.encrypt(GenerateKey(crypto, secretKey), iv, image.data).value;
              if WellFormed(image) then
                t == s.(iv := Some(iv), encrypted := Some(encrypted),
                        current := Some(ImageData(Visual(encrypted, |image.data|), image.width, image.height)),
                        transformDisabled := true, revertDisabled := false, transformed := true)
              else
                t == s.(iv := Some(iv), encrypted := Some(encrypted))
    ensures t.current != s.current ==>
              && s.current.Some? && t.current.Some?
              && SameSize(t.current.value, s.current.value)
              && t.encrypted.Some?
              && t.current.value.data == Visual(t.encrypted.value, |s.current.value.data|)
              && t.transformed && t.transformDisabled && !t.revertDisabled
    ensures Consistent(s) ==> Consistent(t)
  {
    if s.current.None? || |secretKey| == 0 then s
    else
      var image := s.current.value;
      var key := GenerateKey(crypto, secretKey);
      var withIv := s.(iv := Some(iv));
      match crypto.encrypt(key, iv, image.data)
      case None => withIv
      case Some(encrypted) =>
        var stored := withIv.(encrypted := Some(encrypted));
        match NewImageData(Visual(encrypted, |image.data|), image.width, image.height)
        case None => stored
        case Some(visualImage) =>
          stored.(current := Some(visualImage), transformDisabled := true,
                  revertDisabled := false, transformed := true)
  }

  /** The guard of `revertImage`: it runs only with both images, a nonce
      and a ciphertext stored. */
  predicate CanRevert(s: State) {
    s.original.Some? && s.current.Some? && s.iv.Some? && s.encrypted.Some?
  }

  /** `revertImage` with the password `secretKey`: the stored ciphertext is
      decrypted under the stored nonce and, when that succeeds and the
      plaintext fits the current dimensions, becomes the current image;
      transform is enabled and revert disabled. Any other outcome leaves
      every field as it was. */
  function RevertStep(s: State, crypto: Crypto, secretKey: string): (t: State)
    ensures !CanRevert(s) || |secretKey| == 0 ==> t == s
    ensures t.original == s.original && t.iv == s.iv && t.encrypted == s.encrypted
    ensures t.transformed == s.transformed
    ensures t == s || (
              && CanRevert(s) && t.current.Some?
              && crypto.decrypt(GenerateKey(crypto, secretKey), s.iv.value, s.encrypted.value)
                   == Some(t.current.value.data)
              && WellFormed(t.current.value) && SameSize(t.current.value, s.current.value)
              && !t.transformDisabled && t.revertDisabled)
    ensures Consistent(s) ==> Consistent(t)
  {
    if !CanRevert(s) || |secretKey| == 0 then s
    else
      var key := GenerateKey(crypto, secretKey);
      match crypto.decrypt(key, s.iv.value, s.encrypted.value)
      case None => s
      case Some(decrypted) =>
        var image := s.current.value;
        match NewImageData(decrypted, image.width, image.height)
        case None => s
        case Some(restored) =>
          s.(current := Some(restored), transformDisabled := false, revertDisabled := true)
  }

  /** A successful transformation of a consistent state stores the nonce
      and the whole ciphertext, tag included, which is 16 bytes longer than
      the pixels; the new current image keeps the dimensions and holds the
      first `|pixels|` ciphertext bytes, dropping exactly the 16-byte tag. */
  lemma TransformStoresCiphertext(s: State, crypto: Crypto, secretKey: string, iv: Nonce,
                                  encrypted: seq<byte>)
    requires Sound(crypto) && Consistent(s)
    requires s.current.Some? && |secretKey| > 0
    requires crypto.encrypt(GenerateKey(crypto, secretKey), iv, s.current.value.data) == Some(encrypted)
    ensures var t := TransformStep(s, crypto, secretKey, iv);
            var image := s.current.value;
            && |encrypted| == |image.data| + TAG_BYTES
            && t.iv == Some(iv) && t.encrypted == Some(encrypted)
            && t.current == Some(ImageData(encrypted[..|image.data|], image.width, image.height))
            && encrypted == t.current.value.data + encrypted[|image.data|..]
            && |encrypted[|image.data|..]| == TAG_BYTES
            && t.original == s.original
            && t.transformed && t.transformDisabled && !t.revertDisabled
  {
    var image := s.current.value;
    VisualIsPrefix(encrypted, |image.data|);
  }

  /** When decryption under the stored nonce yields a plaintext that fits
      the current dimensions, reverting makes it the current image. */
  lemma RevertRestoresPlaintext(s: State, crypto: Crypto, secretKey: string, plaintext: seq<byte>)
    requires CanRevert(s) && |secretKey| > 0
    requires crypto.decrypt(GenerateKey(crypto, secretKey), s.iv.value, s.encrypted.value) == Some(plaintext)
    requires WellFormed(ImageData(plaintext, s.current.value.width, s.current.value.height))
    ensures RevertStep(s, crypto, secretKey)
            == s.(current := Some(ImageData(plaintext, s.current.value.width, s.current.value.height)),
                  transformDisabled := false, revertDisabled := true)
  {
  }

  /** Reverting with the password of the last transformation restores the
      exact pixels from before it, enables transform and disables revert;
      the stored nonce, ciphertext, original image and transformed flag are
      those the transformation left. */
  lemma RevertUndoesTransform(s: State, crypto: Crypto, secretKey: string, iv: Nonce)
    requires Sound(crypto) && Consistent(s)
    requires s.current.Some? && |secretKey| > 0
    requires crypto.encrypt(GenerateKey(crypto, secretKey), iv, s.current.value.data).Some?
    ensures var t := TransformStep(s, crypto, secretKey, iv);
            RevertStep(t, crypto, secretKey)
              == t.(current := s.current, transformDisabled := false, revertDisabled := true)
  {
    var key := GenerateKey(crypto, secretKey);
    var encrypted := crypto.encrypt(key, iv, s.current.value.data).value;
    TransformStoresCiphertext(s, crypto, secretKey, iv, encrypted);
    var t := TransformStep(s, crypto, secretKey, iv);
    assert crypto.decrypt(key, iv, encrypted) == Some(s.current.value.data);
    RevertRestoresPlaintext(t, crypto, secretKey, s.current.value.data);
  }

  /** Selecting a new image keeps the previous nonce and ciphertext and
      enables revert, so reverting with the previous password replaces the
      new image by the pixels of the image transformed before, whenever
      the two have the same dimensions. */
  lemma ReloadKeepsStaleCiphertext(s: State, crypto: Crypto, secretKey: string, iv: Nonce, file: Bitmap)
    requires Sound(crypto) && Consistent(s)
    requires s.current.Some? && |secretKey| > 0
    requires crypto.encrypt(GenerateKey(crypto, secretKey), iv, s.current.value.data).Some?
    requires file.width == s.current.value.width && file.height == s.current.value.height
    ensures var reloaded := LoadStep(TransformStep(s, crypto, secretKey, iv), Some(file));
            && reloaded.current == Some(ImageData(file.pixels, file.width, file.height))
            && !reloaded.revertDisabled
            && RevertStep(reloaded, crypto, secretKey).current == s.current
  {
    var key := GenerateKey(crypto, secretKey);
    var encrypted := crypto.encrypt(key, iv, s.current.value.data).value;
    TransformStoresCiphertext(s, crypto, secretKey, iv, encrypted);
    var t := TransformStep(s, crypto, secretKey, iv);
    var reloaded := LoadStep(t, Some(file));
    assert crypto.decrypt(key, iv, encrypted) == Some(s.current.value.data);
    RevertRestoresPlaintext(reloaded, crypto, secretKey, s.current.value.data);
  }
}
