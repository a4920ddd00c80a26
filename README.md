# Notebook helpers of a RAG demo, modelled in Dafny

This project models `helpers.py`, the small helper module behind a
retrieval-augmented-generation notebook:

- `to_markdown` turns an answer text into display markdown in three passes.
  - Each bullet glyph `•` becomes the list marker `"  * "`.
  - Each ```` ```python\n…\n``` ```` block is re-emitted as
    `"\n```python\n" + body + "\n```\n"`. The model scans for these blocks as
    the regular-expression engine does: leftmost match, lazy body, no overlaps.
  - A two-state loop runs over the lines. A fence line (one starting with three
    back-ticks) is copied and flips the "inside a code block" flag. Outside a
    block, a line is stripped, dropped if blank, and otherwise quoted with `"> "`.
    Inside a block, a line is copied byte for byte.
- `format_docs` joins the documents' contents with a blank line between them.
- `get_session_history` finds the chat history for a session id in the
  process-wide store, or creates it.
- `load_wikipedia_with_cache` answers a title from the cache of loaded pages.
  On a miss it calls the page loader and stores the result.

Modules:

- `Strings` models the Python built-ins the code uses: `join`, `split` on one
  character, and `strip`.
- `Markdown` models `to_markdown`. The bullet and fence passes are pure functions.
  The line loop is the method `FormatLines`. It is proved against the reference
  function `Render`, and the properties of the formatter are lemmas about `Render`.
- `Docs` holds the document record and `format_docs`.
- `Sessions` and `WikiCache` are classes with map fields that their methods update.
  The cache counts loader calls in a ghost field.

Where the description of the code and the code disagree, the model follows the
code. The docstring of `format_docs` promises `""` for `None`, but
`"\n\n".join(...)` over `None` raises, so only lists are modelled. The docstring
of `to_markdown` promises to preserve Python code blocks, but the bullet
replacement runs over the whole text before the fence pass, so a `•` inside a
Python block also becomes `"  * "`; `Markdown.SubstituteBlock` and
`Markdown.MarkdownCodeBlock` state the block body after that replacement.

## Model

| member | source | states |
|---|---|---|
| `Strings.Join` | helpers.py:61 | definition of `sep.join(parts)`: the parts in order with the separator between neighbours, the empty text for no parts |
| `Strings.TrimStart` | helpers.py:54 | definition of `lstrip`: drops whitespace characters from the front one at a time |
| `Strings.TrimEnd` | helpers.py:54 | definition of `rstrip`: drops whitespace characters from the back one at a time |
| `Strings.Strip` | helpers.py:54 | definition of `line.strip()` as `rstrip` after `lstrip` |
| `Markdown.ReplaceBullets` | helpers.py:31 | definition of `text.replace('•', '  * ')`, character by character |
| `Markdown.Rewrap` | helpers.py:34-35 | definition of `preserve_code`: the matched body between a newline and ```` ```python ```` line and a ```` ``` ```` line and a newline |
| `Markdown.SubstituteFences` | helpers.py:38 | definition of the `re.sub` scan: at each position a match is the opening delimiter followed by the first closing delimiter after it; a match is replaced by `Rewrap` of its body and the scan resumes after it, otherwise one character is copied |
| `Markdown.IsFenceLine` | helpers.py:47 | definition of `line.startswith("```")` |
| `Markdown.Toggle` | helpers.py:47-48 | definition of the flag after one line: flipped by a fence line, kept otherwise |
| `Markdown.EmitLine` | helpers.py:47-58 | definition of what one line appends: a fence line or a line inside a block as it is, otherwise nothing for a blank line and `"> "` plus the stripped line for the rest |
| `Markdown.Render` | helpers.py:45-58 | definition of the lines the loop appends, for a list of lines and a starting flag |
| `Markdown.After` | helpers.py:45-58 | definition of the flag the loop ends with, for a list of lines and a starting flag |
| `Markdown.Blockquote` | helpers.py:53-56 | definition of the quoting of text outside blocks: each non-blank line stripped and prefixed with `"> "`, in order |
| `Markdown.MarkdownLines` | helpers.py:31-61 | definition of the three passes: bullets replaced, fences substituted, split at newlines, rendered from outside any block |
| `Strings.Split` | helpers.py:41 | `text.split("\n")` always has at least one part, even for the empty text |
| `Strings.SplitSpec` | helpers.py:41 | no part contains the separator, and the first part is a prefix of the text |
| `Strings.JoinSplit` | helpers.py:41 | joining the parts of a split with the same separator gives back the original text |
| `Strings.SplitJoin` | helpers.py:61 | splitting a join of separator-free parts gives back exactly those parts, so the lines `to_markdown` joins can be recovered |
| `Strings.SplitConcat` | helpers.py:41 | a separator in the middle of a text splits it into the parts of the text on each side |
| `Strings.SplitNoSeparator` | helpers.py:41 | a text without the separator is one part |
| `Strings.SplitChars` | helpers.py:41 | every character of every part comes from the split text |
| `Strings.JoinAppend` | helpers.py:80 | joining two non-empty lists puts exactly one separator between the two joins |
| `Strings.JoinLength` | helpers.py:80 | a join is as long as its parts plus one separator per gap |
| `Strings.TrimStartSpec` | helpers.py:54 | the result is a suffix of the input, what was dropped is all whitespace, and the result does not start with whitespace |
| `Strings.TrimEndSpec` | helpers.py:54 | the result is a prefix of the input, what was dropped is all whitespace, and the result does not end with whitespace |
| `Strings.StripSpec` | helpers.py:54 | `line.strip()` has no whitespace at either end, and it is empty exactly when the line is all whitespace |
| `Strings.StripInfix` | helpers.py:54 | the stripped line is the infix of the line between a whitespace-only head and a whitespace-only tail |
| `Strings.StripIdempotent` | helpers.py:54 | stripping twice is the same as stripping once |
| `Strings.StripChars` | helpers.py:54 | stripping adds no character |
| `Markdown.ReplaceBulletsSpec` | helpers.py:31 | the result has no `•`; any character other than `•`, space and `*` is in the result exactly when it is in the input; input without `•` is unchanged |
| `Markdown.ReplaceBulletsConcat` | helpers.py:31 | the replacement distributes over concatenation, so characters keep their order |
| `Markdown.ReplaceBulletsIsSplitJoin` | helpers.py:31 | cutting the text at each `•` and joining the pieces, in order, with `"  * "` gives the replacement |
| `Markdown.ReplaceBulletsNoTripleTick` | helpers.py:31 | the bullet replacement creates no run of three back-ticks, so it cannot create a fence |
| `Markdown.ReplaceBulletsBlock` | helpers.py:31 | the bullet pass leaves the fence delimiters unchanged and replaces bullets in the text before, inside and after a block separately |
| `Markdown.ReplaceBulletsFenceLine` | helpers.py:31 | a text whose replacement starts with three back-ticks already started with them, so the bullet pass creates no fence line |
| `Markdown.ReplaceBulletsNoClose` | helpers.py:31 | the bullet pass creates no closing delimiter `"\n```"` |
| `Markdown.FindClose` | helpers.py:38 | finds the first `"\n```"` at or after a position, or reports that there is none; this is where the lazy `(.*?)` stops |
| `Markdown.SubstituteFencesIdentity` | helpers.py:34-38 | if no `"```python\n"` is followed by a `"\n```"`, the substitution is the identity; an unterminated block passes through unchanged |
| `Markdown.SubstituteFencesNoOpen` | helpers.py:38 | a character where no match starts is copied and the scan moves on by one. That covers both a character with no opening delimiter and an opening delimiter that no closing delimiter follows |
| `Markdown.FindCloseShift` | helpers.py:38 | whether a closing delimiter follows a position does not change when the text loses its first character and the position moves with it |
| `Markdown.SubstituteFencesCopiesPrefix` | helpers.py:38 | text at which no match starts is copied unchanged, including any opening delimiter in it that no closing delimiter follows |
| `Markdown.FirstCloseAfterBody` | helpers.py:38 | when the body contains no `"\n```"`, the lazy match ends at the delimiter right after the body |
| `Markdown.SubstituteFencesAtOpen` | helpers.py:34-38 | a match at the start is replaced by `"\n```python\n" + body + "\n```\n"`, and the scan resumes after the closing delimiter |
| `Markdown.SubstituteFencesFirstMatch` | helpers.py:34-38 | leftmost match: when no match starts before the first block, the text before it is copied, the body is kept unchanged between the re-emitted fences, and the rest is substituted on its own |
| `Markdown.NoMatchInPrefix` | helpers.py:38 | no match starts inside text without three back-ticks in a row, even when an opening delimiter follows it directly |
| `Markdown.SubstituteBlock` | helpers.py:31-38 | bullet and fence passes on text without three back-ticks in a row, followed by a Python block: the replaced prefix, then the re-emitted body with its bullets replaced, then the passes applied to the rest |
| `Markdown.BlockquoteLines` | helpers.py:53-56 | for the reference `Blockquote` of text outside blocks: each output line is `"> "` followed by a non-empty stripped text, and there are no more output lines than input lines |
| `Markdown.RenderLength` | helpers.py:41-61 | the line loop never emits more lines than the split input has |
| `Markdown.AfterParity` | helpers.py:45-50 | the final `inside_code_block` is the initial flag flipped once per fence line, so starting from false it is true exactly when the number of fence lines is odd |
| `Markdown.RenderAppend` | helpers.py:45-58 | the loop works left to right: the later lines are formatted with the flag the earlier lines left |
| `Markdown.RenderFence` | helpers.py:47-50 | a fence line is emitted verbatim and flips the flag |
| `Markdown.RenderInside` | helpers.py:57-58 | inside a code block, lines without a fence are emitted byte for byte, without a prefix or trimming, and the flag stays on |
| `Markdown.RenderOutside` | helpers.py:53-56 | outside any block, lines without a fence come out as `Blockquote` says, and the flag stays off |
| `Markdown.CodeBlockVerbatim` | helpers.py:45-58 | the fences of a closed code block and every line between them are emitted verbatim, and the text after the block is formatted as if the block were absent |
| `Markdown.UnterminatedFence` | helpers.py:45-58 | after an unterminated fence, every remaining line is emitted verbatim to the end, and the flag is still on at the end |
| `Markdown.ScanStep` | helpers.py:45-58 | one iteration of the loop keeps the total: what was emitted so far, then this line's output, then the rest rendered with the updated flag |
| `Markdown.FormatLines` | helpers.py:42-58 | the loop over the lines returns the lines `Render` specifies from the flag off, and the final flag is the one `After` specifies |
| `Markdown.EmitNoNewline` | helpers.py:53-58 | a line without a newline emits only lines without a newline, whichever branch of the loop it takes |
| `Markdown.RenderNoNewline` | helpers.py:54-61 | no emitted line contains a newline |
| `Markdown.ToMarkdown` | helpers.py:17-61 | the formatted text is the rendered lines joined with `"\n"`; when there is at least one line, splitting the result at newlines gives those lines back |
| `Markdown.NoTripleTickNoOpen` | helpers.py:38 | text without three back-ticks in a row holds no opening delimiter, so the fence pass leaves it alone |
| `Markdown.NoTripleTickLines` | helpers.py:41-47 | text without three back-ticks in a row splits into lines none of which starts a fence |
| `Markdown.MarkdownPlainText` | helpers.py:17-61 | text without fences, that is without three back-ticks in a row (inline code spans are allowed): every output line is `"> "` followed by a non-empty stripped line, in order, with blank lines dropped |
| `Markdown.SplitTailNoFence` | helpers.py:41-47 | in a text without `"\n```"`, no line after the first is a fence line |
| `Markdown.SplitBodyNoFence` | helpers.py:41-47 | a block body that has no `"\n```"` and does not start with a fence splits into lines none of which is a fence line |
| `Markdown.SplitRewrap` | helpers.py:35-41 | a re-emitted block splits into the line ```` ```python ````, the body's lines, and the line ```` ``` ```` |
| `Markdown.MarkdownCodeBlock` | helpers.py:17-61 | for text without three back-ticks in a row, then a Python block, then more text: the first part is quoted line by line, the lines of the block body, with bullets replaced as in the rest of the text, appear between the fence lines, and the rest is formatted as if it stood alone |
| `Docs.Contents` | helpers.py:80 | one content per document, in list order |
| `Docs.FormatDocs` | helpers.py:65-80 | an empty list gives `""` and a one-document list gives exactly that document's content |
| `Docs.FormatDocsAppend` | helpers.py:80 | formatting two non-empty lists together gives each one's formatting with one blank line between them |
| `Docs.FormatDocsCons` | helpers.py:80 | the first document's content comes first, then `"\n\n"`, then the formatting of the rest |
| `Docs.FormatDocsLength` | helpers.py:80 | the result is exactly as long as all contents together plus two characters per gap |
| `Sessions.ChatHistory.constructor` | helpers.py:93 | a new history has no messages |
| `Sessions.SessionStore.constructor` | helpers.py:15 | the store starts empty |
| `Sessions.SessionStore.GetSessionHistory` | helpers.py:92-94 | an existing id returns its stored history and leaves the store unchanged; a new id adds exactly that key, bound to a fresh empty history, and no other key changes; afterwards the id is bound to the returned history |
| `Sessions.SameHistoryTwice` | helpers.py:92-94 | on any store, two calls with the same id return the same object, so a turn appended through the first call is visible through the second. For a known id it follows the turns already there; for a new id it is the only turn of a fresh history |
| `WikiCache.PageCache.constructor` | helpers.py:110-114 | the cache starts from the stored entries (empty when the cache file is missing) and no loader call has been made |
| `WikiCache.PageCache.LoadWithCache` | helpers.py:116-129 | a hit returns the stored documents in order, does not call the loader and leaves the cache unchanged; a miss calls the loader once and returns its answer, stores loaded documents under the title and leaves the other titles alone; a loader error stores nothing |
| `WikiCache.SecondLoadIsHit` | helpers.py:116-129 | on any cache, two loads of one title: a stored title is answered twice from the cache with no loader call; otherwise, once the first load succeeds, the second call returns the same documents with exactly one loader call in all, and after a failure the second call loads again |

## Left out

- The IPython `Markdown` wrapper and `display` calls (helpers.py:6, 63, 162-163) and `display_answer` (helpers.py:150-163) only present output. `ToMarkdown` returns the formatted string.
- The debugging `display` of the whole store inside `get_session_history` (helpers.py:91) is a side effect with no contract.
- Reading and writing the JSON cache file (helpers.py:110-114, 126-127) is not modelled. The `entries` field stands for the file's contents. A missing file is the constructor with an empty map. Other read or decode errors, and write errors, propagate in the source and are not modelled.
- Several processes sharing the cache file can race on it (read-modify-write, last writer wins). The model is single-threaded.
- The conversions `Document(**doc_dict)` and `doc.__dict__` (helpers.py:118, 124) depend on library object internals. A document is a plain value, so both conversions are the identity.
- Document metadata values are kept as text. The source allows arbitrary JSON values.
- `WikipediaLoader` (helpers.py:120-121) does network access. It is a function given to the cache, from title to documents or an error. A function is deterministic, so the model cannot express two loads of the same title giving different pages.
- `split_text_documents` (helpers.py:131-148) only delegates to `RecursiveCharacterTextSplitter`, whose algorithm is not part of this model.
- `ChatMessageHistory` internals are reduced to a list of messages with an append (`AddMessage`).
- `format_docs(None)` raises in the source, although its docstring promises `""`. Only lists are modelled.
- `Strings.StripSpec` and `Strip` use a fixed `IsWhitespace` set: the characters Python's `str.isspace` accepts (TAB to CR, FS to US, SPACE, NEL, NO-BREAK SPACE, OGHAM SPACE MARK, EN QUAD to HAIR SPACE, LINE and PARAGRAPH SEPARATOR, NARROW NO-BREAK SPACE, MEDIUM MATHEMATICAL SPACE, IDEOGRAPHIC SPACE). The set is taken to match the Python version in use.
- `Markdown.MarkdownCodeBlock` covers text before the block without three back-ticks in a row, and a body that does not start with a fence and holds no closing delimiter (the regular expression would end the block at that delimiter). A body that starts with three back-ticks flips the flag once more in the source, and that case is described only by the general `Render` lemmas.
