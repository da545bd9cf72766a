# PixelCipher, modelled in Dafny

PixelCipher is a browser page that encrypts an image with a password. Its
logic sits in one class, `PixelCipher` in `script.js`.

- It derives an AES-256 key from the password. This uses PBKDF2-HMAC-SHA256
  with the fixed salt `01 02 … 09 00` and 100000 iterations.
- It encrypts the raw RGBA pixels with AES-GCM under a fresh 12-byte nonce.
- It stores the nonce and the full ciphertext (the 16-byte tag included) in
  the object.
- It replaces the displayed image by a "visual cipher" image of the same
  size. Visual byte `i` is ciphertext byte `i mod |ciphertext|`.
- Revert decrypts the stored ciphertext with the password typed in. If that
  works and the plaintext fits the image's size, it puts the pixels back.
- Two buttons, transform and revert, are enabled and disabled as the state
  changes.

The model has six modules:

- `Wrappers` (wrappers.dfy): `Option`. It stands for the object's `null`
  fields and for host calls that may throw.
- `Pixels` (pixels.dfy): bytes, `ImageData`, and the decoded bitmap the
  file input supplies. It also holds the two browser calls the cipher makes
  on pixel buffers. `NewImageData` is the `ImageData` constructor, written
  after the steps of the HTML standard. `GetImageData` is the canvas
  read-back.
- `WebCrypto` (web_crypto.dfy): the crypto host as an abstract provider.
  - `Crypto` has three function fields: `deriveKey`, `encrypt` and `decrypt`.
  - `Sound` states the only two facts the cipher relies on. A successful
    encryption is 16 bytes longer than its plaintext. Decrypting it with the
    same key and nonce gives the plaintext back.
  - Decryption of anything else is unconstrained: it may succeed or fail.
  - `GenerateKey` applies `deriveKey` to the password and the constant salt
    and iteration count. So the key depends on the password alone.
- `VisualCipher` (visual_cipher.dfy): the fill loop of `transformImage` as
  a method with a loop over an array (`VisualFill`). It is proved against a
  recursive specification (`Visual`), with lemmas about that specification.
- `CipherState` (cipher_state.dfy): the object's fields as a `State` value.
  - The three transitions are pure functions: `LoadStep`, `TransformStep`
    and `RevertStep`.
  - `Consistent` is the invariant every transition preserves.
  - Lemmas state the round trip and the effects of each step.
- `PixelCipherApp` (pixel_cipher.dfy): the `PixelCipher` class. Its fields
  are the ones `script.js` updates. Its handlers update them step by step,
  with the same early returns as the source. Each handler is proved to
  perform the matching transition of `CipherState`.

The environment enters as parameters:

- the password typed in (`secretKey`);
- the random nonce;
- the decoded image file;
- the crypto provider;
- the transform button's initial `disabled` attribute, which comes from the
  page markup.

## Model

| member | source | states |
|---|---|---|
| `Pixels.NewImageData` | script.js:344-348 | `new ImageData(data, w, h)` succeeds exactly when the buffer is non-empty and holds `4*w*h` bytes, and then wraps that buffer with those dimensions; any other length throws |
| `Pixels.GetImageData` | script.js:159-163 | reading the processing canvas back succeeds exactly when width and height are positive, and gives a well-formed image holding the decoded pixels with the bitmap's dimensions |
| `WebCrypto.GenerateKey` | script.js:206-234 | the key is `deriveKey` applied to the password, the constant salt 1, 2, …, 9, 0 and 100000 iterations, so it depends on the password alone |
| `VisualCipher.CipherByteAt` | script.js:275 | the indexed read gives ciphertext byte `i mod len(ciphertext)`, 0 for an empty ciphertext (NaN index, `undefined`, clamped to 0), and byte `i` itself when `i` is below the ciphertext's length |
| `VisualCipher.Visual` | script.js:270 | the visual buffer is exactly as long as the requested length (the current pixel data) |
| `VisualCipher.VisualAt` | script.js:274-276 | visual byte `i` equals ciphertext byte `i mod len(ciphertext)`, or 0 for an empty ciphertext |
| `VisualCipher.VisualIsPrefix` | script.js:271-276 | when the ciphertext is at least as long as the buffer, the buffer is the ciphertext's prefix and the ciphertext is that prefix followed by the bytes left out |
| `VisualCipher.VisualFill` | script.js:270-276 | the fill loop returns a buffer of the given length whose byte `i` is ciphertext byte `i mod len(ciphertext)`, which is the specification `Visual` |
| `CipherState.Initial` | script.js:15-22 | the initial state has no images, nonce or ciphertext, is not transformed, has revert disabled, and is consistent |
| `CipherState.LoadStep` | script.js:81-99 | no file changes nothing; a file enables both buttons and clears the transformed flag; readable pixels become both the original and the current image; nonce and ciphertext are kept; consistency is preserved |
| `CipherState.TransformStep` | script.js:236-317 | no current image or an empty password changes nothing; otherwise the nonce is stored first, and a failed encryption changes the nonce and nothing else; a successful encryption of a well-formed image stores the nonce and the ciphertext, makes the visual rendering of the ciphertext the current image with the same dimensions, disables transform, enables revert and sets the transformed flag, and changes nothing else; if the image is not well-formed only nonce and ciphertext change; the original is never touched; consistency is preserved |
| `CipherState.RevertStep` | script.js:319-378 | a missing image, nonce or ciphertext, or an empty password, changes nothing; nonce, ciphertext, original and transformed flag never change; either nothing changes, or the decryption under the stored nonce succeeded, its plaintext is the new well-formed current image of the same size, transform is enabled and revert disabled; consistency is preserved |
| `CipherState.TransformStoresCiphertext` | script.js:253-305 | a successful transformation stores the fresh nonce and the full ciphertext, which is 16 bytes longer than the pixels; the new image keeps the dimensions and holds the first `len(pixels)` ciphertext bytes; only the 16-byte tag is left out |
| `CipherState.RevertRestoresPlaintext` | script.js:330-366 | when decryption gives a plaintext that fits the current dimensions, reverting makes it the current image, enables transform, disables revert and changes nothing else |
| `CipherState.RevertUndoesTransform` | script.js:236-378 | reverting with the password of the last successful transformation restores the exact pre-transform pixels, enables transform and disables revert, and leaves the nonce, ciphertext, original image and transformed flag as the transformation set them |
| `CipherState.ReloadKeepsStaleCiphertext` | script.js:81-99 | selecting a new image keeps the earlier nonce and ciphertext and enables revert, so reverting with the earlier password replaces a same-sized new image by the pixels transformed before |
| `PixelCipherApp.PixelCipher.constructor` | script.js:2-27 | the object starts in `Initial`, with revert disabled |
| `PixelCipherApp.PixelCipher.HandleImageSelected` | script.js:81-99 | the change handler and the image's load handler, run in place, perform `LoadStep` on the fields and keep the object valid |
| `PixelCipherApp.PixelCipher.OnImageLoad` | script.js:152-168 | the load handler sets the original image to the canvas read-back and the current image to an equal copy; when the read-back throws, neither is assigned |
| `PixelCipherApp.PixelCipher.TransformImage` | script.js:236-317 | `transformImage`, run in place with its early returns, performs `TransformStep` on the fields and keeps the object valid |
| `PixelCipherApp.PixelCipher.RevertImage` | script.js:319-378 | `revertImage`, run in place with its early returns, performs `RevertStep` on the fields and keeps the object valid |
| `PixelCipherApp.PixelCipher.EnableTransformButton` | script.js:389-392 | the transform button is enabled; nothing else changes |
| `PixelCipherApp.PixelCipher.DisableTransformButton` | script.js:394-397 | the transform button is disabled; nothing else changes |
| `PixelCipherApp.PixelCipher.EnableRevertButton` | script.js:399-402 | the revert button is enabled; nothing else changes |
| `PixelCipherApp.PixelCipher.DisableRevertButton` | script.js:404-407 | the revert button is disabled; nothing else changes |
| `PixelCipherApp.TransformThenRevert` | script.js:236-378 | on the object, a successful transform followed by a revert with the same password brings back the pre-transform pixels; the nonce and ciphertext of the transform stay stored, the transformed flag stays set, transform is enabled and revert disabled |

## Left out

- PBKDF2 and AES-GCM internals. These are host crypto calls. They are
  abstract functions constrained only by `Sound`, and no security property
  is stated.
- The UTF-8 encoding of the password. It is folded into `deriveKey`.
- Failure of key derivation. `GenerateKey` is total. Only `encrypt` and
  `decrypt` may fail.
- Nonce randomness. The nonce is a parameter of `TransformImage`.
- Asynchrony. Every handler is one atomic step.
  - The file input's change handler enables the buttons before the image's
    load handler fires. `handleImageUpload` is registered twice on the same
    input. Running the load handler twice leaves the same final state.
  - `TransformImage` and `RevertImage` wait on PBKDF2 and AES-GCM in the
    source. While they wait, the transform button is still enabled (it is
    disabled only at script.js:303), and revert is enabled after a load.
    So a second click can run in between, and the model does not capture
    that.
  - Two overlapping transforms: the second stores its nonce (script.js:254)
    and the first may store its ciphertext last (script.js:267). The stored
    nonce and ciphertext then do not match, and every later revert fails.
  - A transform that resumes after another has replaced the current image
    (script.js:279) encrypts the visual image instead of the pixels.
- Aliasing. `ImageData` is a value. The copy made for the current image at
  load time is equal to the original, and the model cannot say it is a
  distinct object. No handler mutates an image in place.
- Image decoding. The decoded bitmap is a parameter whose pixel length is
  `4 * width * height`.
- Display work: canvas drawing, `putImageData`, the preview scaling and
  `calculateAspectRatio`. The scaling is floating-point arithmetic.
- `TransformStep`, `RevertStep`, `LoadStep`: a throw from the canvas drawing is not
  modelled. The processing canvas is resized (script.js:154-156) before
  `getImageData` throws for a zero width or height. After such a load,
  `drawImage` of that canvas throws in `transformImage` (script.js:292)
  and in `revertImage` (script.js:354). By then `currentImageData` is
  already assigned (script.js:279, 344), but the button and flag updates
  (script.js:303-305, 365-366) are skipped. In that case the source keeps
  transform enabled and `isImageTransformed` as it was (and, on revert,
  revert enabled). The model disables transform, enables revert and sets
  the transformed flag (on revert: enables transform and disables revert).
- UI work: theme toggle, `localStorage`, toasts, the image-actions
  visibility classes, button styling classes, share and download. These
  have no state the cipher reads.
- `Uint8ClampedArray` clamping. Every byte is already in 0..255, so
  clamping changes nothing.
- A serialized cipher record, its parser and typed error kinds. `script.js`
  has none of them.
