// The ids backup and recovery generations are named by.
module GenerationIds {
  import opened Text

  predicate IsHex(c: char) { IsDigit(c) || 'a' <= c <= 'f' }

  // \d{8}T\d{12}Z-[0-9a-f]{8}
  predicate ValidId(s: string) {
    && |s| == 31 && s[8] == 'T' && s[21] == 'Z' && s[22] == '-'
    && (forall i | 0 <= i < 8 :: IsDigit(s[i])) && (forall i | 9 <= i < 21 :: IsDigit(s[i]))
    && (forall i | 23 <= i < 31 :: IsHex(s[i]))
  }
}
