# Word tokenizer and per-word map of encryption-task

This project models, in Dafny, the word pipeline of the `encrypt` program:

1. `GetWordArray` deletes every newline (`'\n'`) from the text and splits the rest on the single character `' '`, as `String.Split(' ')` does. Empty words from consecutive, leading or trailing spaces are kept, and punctuation stays attached to its word.
2. `wordArray.Select(word => EncryptWord(word, 5000))` maps every word through `EncryptWord`, lazily and in order.
3. `WriteListToFile` writes `string.Join(" ", wordList)` to `encryptedWords.txt`.

`EncryptWord` is a stub in the source. It returns `"test"` whatever the word and the round count, and the model defines it the same way. The map is modelled as a generic `Select` over any transform, so the length and order results hold for any transform, not only for the stub.

The model is split into two modules:

- `Text` (`text.dfy`) holds the three .NET string operations the pipeline uses. `Remove` models `Replace` with a one-character pattern and an empty replacement, `Split` models `Split(char)`, and `Join` models `string.Join`. It also holds their laws. Split then join is the identity. Join then split is the identity on non-empty lists of separator-free tokens. A separator cuts the token list in two, and empty tokens are kept.
- `Encrypt` (`encrypt.dfy`) holds the program's own functions: `GetWordArray` over an arbitrary text, `EncryptWord`, `Select`, the encrypted list `EncryptWords`, the written content `FileContent`, and `Run`, which models the top-level statements.

Two consequences of the tokenizer are proved for arbitrary text. They are not treated as bugs. Newlines are deleted rather than replaced by spaces, so the last word of one line and the first word of the next become one word (`LineBreakGluesWords`). Spaces at the start of the text become empty words, one per space (`LeadingSpacesGiveEmptyWords`). The text embedded in the program has its indentation removed by the compiler and has no doubled or trailing spaces, so the program's own run produces no empty words.

The comment at the top of encrypt/Program.cs (lines 2-5) asks for every word to be encrypted 5000 times and for the results to be collected by position and written to a file. The code does less. `EncryptWord` (lines 45-49) is a `TODO` stub that returns `"test"`, `Select` (line 78) is a plain sequential map, and line 59 writes the words joined by single spaces. This model follows the code.

## Model

| member | source | states |
|---|---|---|
| `Text.Remove` | encrypt/Program.cs:64 | the result holds no newline, is shorter than the text by exactly the number of newlines in it, and keeps every other character as many times as the text has it |
| `Text.RemoveIdempotent` | encrypt/Program.cs:64 | deleting the newlines a second time changes nothing |
| `Text.RemoveAbsent` | encrypt/Program.cs:64 | a text with no newline is left exactly as it is |
| `Text.RemoveAppend` | encrypt/Program.cs:64 | newline removal distributes over concatenation |
| `Text.Split` | encrypt/Program.cs:68 | there is one token more than there are separators, so the result is never empty; no token contains the separator; every character of a token comes from the text |
| `Text.SplitNoSeparator` | encrypt/Program.cs:68 | a text without the separator is a single token, itself |
| `Text.SplitAtSeparator` | encrypt/Program.cs:68 | splitting `a + sep + b` gives the tokens of `a` followed by the tokens of `b` |
| `Text.AdjacentSeparatorsKeepEmptyToken` | encrypt/Program.cs:65-68 | two adjacent separators produce an empty token between the tokens around them, and it is kept |
| `Text.LeadingSeparatorKeepsEmptyToken` | encrypt/Program.cs:65-68 | a leading separator produces an empty first token |
| `Text.TrailingSeparatorKeepsEmptyToken` | encrypt/Program.cs:65-68 | a trailing separator produces an empty last token |
| `Text.SplitConcat` | encrypt/Program.cs:68 | splitting `x + y` gives the tokens of `x` and of `y` with the last token of `x` fused to the first token of `y` |
| `Text.LeadingSeparators` | encrypt/Program.cs:68 | `k` leading separators give `k` empty tokens before the tokens of the rest |
| `Text.JoinSplit` | encrypt/Program.cs:68 | joining the tokens of a split with the separator gives back the text exactly |
| `Text.SplitJoin` | encrypt/Program.cs:68 | splitting the join of a non-empty list of separator-free tokens gives back the list |
| `Text.Join` | encrypt/Program.cs:59 | joining no tokens gives the empty text; otherwise the length is the tokens' total length plus one per gap, and the separator count is the tokens' own separators plus one per gap |
| `Encrypt.GetWordArray` | encrypt/Program.cs:62-69 | the number of words is the number of spaces in the text plus one, so even the empty text gives one word; no word contains a space or a newline |
| `Encrypt.WordArrayRoundTrip` | encrypt/Program.cs:62-69 | the words joined with single spaces are the text with every newline deleted |
| `Encrypt.WordArrayOfJoin` | encrypt/Program.cs:62-69 | a non-empty list of words without spaces or newlines is the word list of its own space-join |
| `Encrypt.WordArrayIgnoresNewlines` | encrypt/Program.cs:64-68 | deleting a newline anywhere in the text does not change its words |
| `Encrypt.LineBreakGluesWords` | encrypt/Program.cs:64-68 | for any two texts, a line break between them fuses the last word of the first with the first word of the second; all other words are kept |
| `Encrypt.LeadingSpacesGiveEmptyWords` | encrypt/Program.cs:64-68 | `k` spaces at the start of a text give `k` empty words before the words of the rest |
| `Encrypt.WordArrayKeepsEmptyWords` | encrypt/Program.cs:65-68 | two spaces in a row give an empty word between the words of the text before and after them |
| `Encrypt.Select` | encrypt/Program.cs:78 | the mapped list has the same length as the input, and entry `i` is the transform of input entry `i` |
| `Encrypt.EncryptWord` | encrypt/Program.cs:45-49 | the stub's output holds no space or newline, so each encrypted word stays one word in the written content |
| `Encrypt.EncryptWordIgnoresArguments` | encrypt/Program.cs:45-49 | every word and round count give the same output, `"test"` |
| `Encrypt.EncryptWords` | encrypt/Program.cs:78 | the encrypted list has one entry per word, and entry `i` is `EncryptWord(word i, 5000)`, so order is kept |
| `Encrypt.EncryptWordsAllPlaceholder` | encrypt/Program.cs:78 | with the stub, the encrypted list is one `"test"` per word |
| `Encrypt.FileContent` | encrypt/Program.cs:59 | for a non-empty list of words without spaces, splitting the written content on spaces gives back the list in order |
| `Encrypt.Run` | encrypt/Program.cs:73-80 | the content a run writes splits back into exactly the encrypted word list |
| `Encrypt.RunContent` | encrypt/Program.cs:73-80 | a run writes `n` copies of `"test"` separated by single spaces, where `n` is the number of spaces in the text plus one, so the content has `5n - 1` characters |

## Left out

- Writing the file (encrypt/Program.cs:51-60). `StreamWriter`, `Path.Combine` and the file name are I/O. Only the written string, `FileContent`, is modelled.
- The embedded text (encrypt/Program.cs:11-43). It is input data, and the indentation stripping of C# raw string literals is compiler behaviour. `GetWordArray` takes the text as a parameter instead of reading the constant.
- Encryption itself. `EncryptWord` is a stub that ignores both of its arguments (encrypt/Program.cs:45-49). The code has no cipher, no rounds and no decryption, so none is modelled.
- Concurrency. `Select` is a lazy, sequential map, and the code has no worker pool and no progress output.
- UTF-16. A C# string is a sequence of UTF-16 code units, and a Dafny `string` is a sequence of Unicode scalar values. For text with characters outside the Basic Multilingual Plane, the length facts here (`Remove`, `Join`, `RunContent`) count characters, not `.Length` code units. The words themselves are unaffected.
- Carriage returns and other .NET string details. The code deletes only `'\n'`. `Remove` models `Replace` for a one-character pattern only, because that is the only way the code calls it.

