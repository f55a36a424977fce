/**
  The values the CMap engine works on: bytes, 32-bit character codes, runes,
  codespace ranges and the CMap record with its four mapping tables.
 */
module CMapTypes {

  /** Largest number of bytes one character code may occupy. */
  const MaxCodeLen: nat := 4

  /** U+FFFD, substituted for character codes that have no Unicode mapping. */
  const MissingCodeRune: Rune := 0xFFFD

  /** Largest number of entries in one bfchar or bfrange block. */
  const MaxBfEntries: nat := 100

  const TwoTo32: nat := 0x1_0000_0000

  type Byte = b: int | 0 <= b < 0x100

  /** A character code, CID or Unicode-side code: an unsigned 32-bit integer. */
  type CharCode = c: int | 0 <= c < 0x1_0000_0000

  /** A rune is a signed 32-bit integer. */
  type Rune = r: int | -0x8000_0000 <= r < 0x8000_0000

  datatype Option<+T> = None | Some(value: T)

  datatype Result<+T, +E> = Success(value: T) | Failure(error: E)

  /** One codespace range: codes of exactly `numBytes` bytes whose value lies in [low, high]. */
  datatype Codespace = Codespace(numBytes: int, low: CharCode, high: CharCode)

  datatype CIDSystemInfo = CIDSystemInfo(registry: string, ordering: string, supplement: int)

  /**
    A CMap. `nbits` is 8 for simple fonts and 16 for CID fonts; `ctype` is 1 for
    code-to-CID maps and 2 for ToUnicode maps; an empty `usecmap` means no base CMap.
   */
  datatype CMap = CMap(
    name: string,
    nbits: int,
    ctype: int,
    version: string,
    usecmap: string,
    systemInfo: CIDSystemInfo,
    codespaces: seq<Codespace>,
    codeToCID: map<CharCode, CharCode>,
    cidToCode: map<CharCode, CharCode>,
    codeToUnicode: map<CharCode, Rune>,
    unicodeToCode: map<Rune, CharCode>)

  /** What the CMap grammar interpreter writes into a fresh CMap. */
  datatype ParsedCMap = ParsedCMap(
    name: string,
    ctype: int,
    version: string,
    usecmap: string,
    systemInfo: CIDSystemInfo,
    codespaces: seq<Codespace>,
    codeToCID: map<CharCode, CharCode>,
    codeToUnicode: map<CharCode, Rune>)

  datatype CMapError =
    | ErrBadCMap
    | ParseError(message: string)
    | AssetNotFound(assetName: string)

  function Min(a: int, b: int): int
  {
    if a <= b then a else b
  }
}
