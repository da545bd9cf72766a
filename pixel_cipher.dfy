/** The `PixelCipher` object: its fields and the handlers that update them
    in place. Every handler is proved to perform the corresponding
    transition of CipherState on the object's fields. */
module PixelCipherApp {
  import opened Wrappers
  import opened Pixels
  import opened WebCrypto
  import opened VisualCipher
  import opened CipherState

  class PixelCipher {
    /** The host's `crypto.subtle`. */
    const crypto: Crypto

    var originalImageData: Option<ImageData>
    var currentImageData: Option<ImageData>
    var iv: Option<Nonce>
    var encryptedData: Option<seq<byte>>
    var isImageTransformed: bool
    /** `transformBtn.disabled` */
    var transformBtnDisabled: bool
    /** `revertBtn.disabled` */
    var revertBtnDisabled: bool

    /** The fields as a CipherState value. */
    function Snapshot(): State
      reads this
    {
      State(originalImageData, currentImageData, iv, encryptedData,
            isImageTransformed, transformBtnDisabled, revertBtnDisabled)
    }

    ghost predicate Valid()
      reads this
    {
      Sound(crypto) && Consistent(Snapshot())
    }

    /** No image, nothing stored, revert disabled; the transform button
        keeps the `disabled` attribute of the page markup. */
    constructor (crypto: Crypto, transformBtnDisabled: bool)
      requires Sound(crypto)
      ensures Valid()
      ensures this.crypto == crypto
      ensures Snapshot() == Initial(transformBtnDisabled)
    {
      this.crypto := crypto;
      originalImageData := None;
      currentImageData := None;
      isImageTransformed := false;
      iv := None;
      encryptedData := None;
      this.transformBtnDisabled := transformBtnDisabled;
      revertBtnDisabled := true;
    }

    /** The `change` handler of the file input together with the image's
        `onload`, taken as one step. */
    method HandleImageSelected(file: Option<Bitmap>)
      requires Valid()
      modifies this
      ensures Valid()
      ensures Snapshot() == LoadStep(old(Snapshot()), file)
    {
      if file.None? {
        return;
      }
      EnableTransformButton();
      EnableRevertButton();
      isImageTransformed := false;
      OnImageLoad(file.value);
    }

    /** The image's `onload`: read the canvas back into the original image
        and store a copy of it as the current image. When `getImageData`
        throws, nothing is assigned. */
    method OnImageLoad(bitmap: Bitmap)
      modifies this`originalImageData, this`currentImageData
      ensures GetImageData(bitmap).None? ==>
                originalImageData == old(originalImageData) && currentImageData == old(currentImageData)
      ensures GetImageData(bitmap).Some? ==>
                originalImageData == GetImageData(bitmap) && currentImageData == originalImageData
    {
      var read := GetImageData(bitmap);
      if read.None? {
        return;
      }
      originalImageData := read;
      var copy := NewImageData(read.value.data, read.value.width, read.value.height);
      currentImageData := copy;
    }

    /** `transformImage` with the password typed in and the nonce drawn
        from the random source. */
    method TransformImage(secretKey: string, freshIv: Nonce)
      requires Valid()
      modifies this
      ensures Valid()
      ensures Snapshot() == TransformStep(old(Snapshot()), crypto, secretKey, freshIv)
    {
      if currentImageData.None? {
        return;
      }
      if secretKey == "" {
        return;
      }
      var key := GenerateKey(crypto, secretKey);
      var pixelArray := currentImageData.value.data;
      iv := Some(freshIv);
      var result := crypto.encrypt(key, freshIv, pixelArray);
      if result.None? {
        return;
      }
      encryptedData := result;
      var visualArray := VisualFill(result.value, |currentImageData.value.data|);
      var visualImage := NewImageData(visualArray, currentImageData.value.width,
                                      currentImageData.value.height);
      if visualImage.None? {
        return;
      }
      currentImageData := visualImage;
      DisableTransformButton();
      EnableRevertButton();
      isImageTransformed := true;
    }

    /** `revertImage` with the password typed in. */
    method RevertImage(secretKey: string)
      requires Valid()
      modifies this
      ensures Valid()
      ensures Snapshot() == RevertStep(old(Snapshot()), crypto, secretKey)
    {
      if originalImageData.None? || currentImageData.None? || iv.None? || encryptedData.None? {
        return;
      }
      if secretKey == "" {
        return;
      }
      var key := GenerateKey(crypto, secretKey);
      var decryptedData := crypto.decrypt(key, iv.value, encryptedData.value);
      if decryptedData.None? {
        return;
      }
      var restored := NewImageData(decryptedData.value, currentImageData.value.width,
                                   currentImageData.value.height);
      if restored.None? {
        return;
      }
      currentImageData := restored;
      EnableTransformButton();
      DisableRevertButton();
    }

    method EnableTransformButton()
      modifies this`transformBtnDisabled
      ensures !transformBtnDisabled
    {
      transformBtnDisabled := false;
    }

    method DisableTransformButton()
      modifies this`transformBtnDisabled
      ensures transformBtnDisabled
    {
      transformBtnDisabled := true;
    }

    method EnableRevertButton()
      modifies this`revertBtnDisabled
      ensures !revertBtnDisabled
    {
      revertBtnDisabled := false;
    }

    method DisableRevertButton()
      modifies this`revertBtnDisabled
      ensures revertBtnDisabled
    {
      revertBtnDisabled := true;
    }
  }

  /** A transformation followed by a revert with the same password, on the
      object: the pixels from before the transformation are back, transform
      is enabled and revert disabled, and the stored nonce and ciphertext
      are those of the transformation. */
  method TransformThenRevert(cipher: PixelCipher, secretKey: string, freshIv: Nonce)
    requires cipher.Valid()
    requires cipher.currentImageData.Some? && |secretKey| > 0
    requires cipher.crypto.encrypt(GenerateKey(cipher.crypto, secretKey), freshIv,
                                   cipher.currentImageData.value.data).Some?
    modifies cipher
    ensures cipher.Valid()
    ensures cipher.currentImageData == old(cipher.currentImageData)
    ensures cipher.originalImageData == old(cipher.originalImageData)
    ensures cipher.iv == Some(freshIv)
    ensures cipher.encryptedData == cipher.crypto.encrypt(GenerateKey(cipher.crypto, secretKey), freshIv,
                                                          old(cipher.currentImageData.value.data))
    ensures cipher.isImageTransformed
    ensures !cipher.transformBtnDisabled && cipher.revertBtnDisabled
  {
    RevertUndoesTransform(cipher.Snapshot(), cipher.crypto, secretKey, freshIv);
    cipher.TransformImage(secretKey, freshIv);
    cipher.RevertImage(secretKey);
  }
}
