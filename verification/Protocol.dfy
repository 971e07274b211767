/** Field sizes, limits and operation codes shared by requests and responses. */
module Protocol {
  import opened Binary

  const USER_ID_LEN: nat := 16
  const USERNAME_LEN: nat := 64
  const MIN_USERNAME_LEN: nat := 5
  const FILE_NAME_LEN: nat := 255
  const MAX_FILE_SIZE: nat := 20 * 1024 * 1024

  const REGISTRATION: Word16 := 100
  const PUBLIC_KEY_SEND: Word16 := 101
  const RE_REGISTRATION: Word16 := 102
  const CREATE_BACKUP: Word16 := 103
  const CRC_SUCCESS: Word16 := 120
  const CRC_ERROR: Word16 := 121
  const CRC_FAILURE: Word16 := 122
  const DISCONNECT: Word16 := 130

  const REGISTRATION_SUCCESS: Word16 := 200
  const USERNAME_TAKEN: Word16 := 202
  const RE_REGISTRATION_SUCCESS: Word16 := 205
  const RE_REGISTRATION_FAILED: Word16 := 206
  const KEY_SEND_SUCCESS: Word16 := 210
  const UPLOAD_RECEIVED: Word16 := 220
  const UPLOAD_REJECTED_TOO_LARGE: Word16 := 221
  const ACK: Word16 := 230
  const FAILED: Word16 := 231

  type UserId = u: Bytes | |u| == 16 witness Zeros(16)
  type PublicKey = k: Bytes | |k| == 160 witness Zeros(160)

  /** The characters `[a-zA-Z0-9._-]`. */
  predicate IsNameChar(c: Byte) {
    || 'a' as int <= c <= 'z' as int
    || 'A' as int <= c <= 'Z' as int
    || '0' as int <= c <= '9' as int
    || c == '.' as int || c == '_' as int || c == '-' as int
  }

  predicate IsName(text: Bytes, minimum: nat, limit: nat) {
    minimum <= |text| < limit && 1 <= |text| && forall i :: 0 <= i < |text| ==> IsNameChar(text[i])
  }

  predicate IsValidUsername(username: Bytes) {
    IsName(username, MIN_USERNAME_LEN, USERNAME_LEN)
  }

  predicate IsValidFilename(name: Bytes) {
    IsName(name, 1, FILE_NAME_LEN)
  }

  /** A validated name is never cut by its wire field, and reads back from it unchanged. */
  lemma ValidNamesFit(name: Bytes)
    ensures IsValidUsername(name) ==> FieldText(TextField(name, USERNAME_LEN)) == name
    ensures IsValidFilename(name) ==> FieldText(TextField(name, FILE_NAME_LEN)) == name
  {
    if IsValidUsername(name) {
      TextFieldRoundTrip(name, USERNAME_LEN);
    }
    if IsValidFilename(name) {
      TextFieldRoundTrip(name, FILE_NAME_LEN);
    }
  }

  /** The characters a name may consist of. */
  lemma NameCharIsInAlphabet(c: Byte)
    ensures IsNameChar(c) <==>
            c as char in {'a', 'b', 'c', 'd', 'e', 'f', 'g', 'h', 'i', 'j', 'k', 'l', 'm', 'n', 'o', 'p', 'q', 'r', 's',
                          't', 'u', 'v', 'w', 'x', 'y', 'z', 'A', 'B', 'C', 'D', 'E', 'F', 'G', 'H', 'I', 'J', 'K', 'L',
                          'M', 'N', 'O', 'P', 'Q', 'R', 'S', 'T', 'U', 'V', 'W', 'X', 'Y', 'Z', '0', '1', '2', '3', '4',
                          '5', '6', '7', '8', '9', '.', '_', '-'}
  {
  }

  /** Exactly which names are accepted: 5 to 63 characters for a user, 1 to 254 for a file, of that alphabet. */
  lemma NamesAccepted(name: Bytes)
    ensures IsValidUsername(name) <==> 5 <= |name| <= 63 && forall j :: 0 <= j < |name| ==> IsNameChar(name[j])
    ensures IsValidFilename(name) <==> 1 <= |name| <= 254 && forall j :: 0 <= j < |name| ==> IsNameChar(name[j])
  {
  }
}
