/** The Python exceptions that the encryptor raises or lets through. */
module Errors {

  datatype Error =
    /** `ValueError` raised by the encryptor itself, with its message. */
    | ValueError(message: string)
    /** `cryptography.fernet.InvalidToken`, as re-raised by `decrypt_seedphrase`. */
    | InvalidToken(message: string)
    /** `binascii.Error` from a base 64 decoder given text that is not base 64
        (Python makes it a subclass of `ValueError`). */
    | Base64Error
    /** `UnicodeDecodeError` from `bytes.decode()` on bytes that are not UTF-8. */
    | UnicodeDecodeError
    /** `TypeError`: an operator applied to a value of the wrong kind. */
    | TypeError
    /** `KeyError`: a dictionary subscript with an absent key. */
    | KeyError
}
