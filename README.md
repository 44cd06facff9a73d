# PDF chat assistant: text cleaning, chat transcript and history export

A Dafny model of the logic that `app.py` of the NIT Uttarakhand PDF chat
assistant computes itself. The rest of the application is Streamlit
presentation and calls into PyMuPDF, LangChain, FAISS and OpenAI.

- `text_cleaning.dfy` (module `TextCleaning`): `clean_text`, which deletes
  every character outside the regular-expression class `[\w\s.,;:!?()-]`.
  The module also holds `extract_text`, which appends the text of each page
  in page order and then cleans the result. Page texts are inputs, because
  the PDF library that produces them is not modelled.
- `chat_log.dfy` (module `ChatLog`): the session's chat transcript. It is
  a list of `(role, message, timestamp)` entries that starts empty. Each
  answered question appends the user's entry and then the bot's entry,
  both with the same timestamp. The analytics question count is
  `len(chat) // 2`. The class `ChatSession` holds the list as a `seq` field.
  A ghost field records the questions answered so far, and the invariant
  `Valid()` ties the list to them through `Transcript`.
- `history_export.dfy` (module `HistoryExport`): the history download.
  Each entry becomes the line `ROLE (time): message`, with the role name
  upper-cased, and the lines are joined by `"\n\n"`. An empty transcript
  produces no download. `ParseEntry` reads a line back, and
  `ParseFormatEntry` proves that it recovers the entry as long as the time
  holds no `)`, which an `HH:MM` reading never does. With a `)` in the time
  two different entries can give the same line (`FormatEntryAmbiguous`).
- `analytics.dfy` (module `Analytics`): the document preview, which is the
  first 500 characters of the text followed by `"..."`.

The answer of the language model and the `HH:MM` clock reading are
parameters of `ChatSession.Ask`. An error raised by the question-answering
chain is the `Reply.Failed` input. The error happens before either append
runs, so the transcript is left unchanged.

The program writes the assistant's role as the string `"bot"`, and its
character class uses Python's Unicode `\w` and `\s`.

## Model

| member | source | states |
|---|---|---|
| `TextCleaning.CleanText` | app.py:25-26 | every character of the cleaned text is a word character, whitespace or one of `. , ; : ! ? ( ) -`, and the result is never longer than the input |
| `TextCleaning.CleanTextIsAllowedSubsequence` | app.py:26 | the cleaned text is the input read at a strictly increasing list of positions, and a position is on that list exactly when its character is allowed: order is preserved, only disallowed characters are deleted, and every allowed one is kept |
| `TextCleaning.CleanTextCounts` | app.py:26 | each allowed character occurs in the output as often as in the input; no disallowed character occurs at all |
| `TextCleaning.CleanTextAppend` | app.py:26 | cleaning a concatenation is concatenating the cleaned parts |
| `TextCleaning.CleanTextFixpoint` | app.py:26 | a string is left unchanged exactly when all its characters are allowed |
| `TextCleaning.CleanTextIdempotent` | app.py:26 | cleaning twice is the same as cleaning once |
| `TextCleaning.CleanTextLength` | app.py:26 | the output is no longer than the input, and has the same length exactly when every input character is allowed |
| `TextCleaning.CleanTextPagewise` | app.py:31-37 | cleaning the concatenated pages equals concatenating each page cleaned on its own, so nothing is lost or invented at a page boundary |
| `TextCleaning.ExtractText` | app.py:31-37 | the page-appending loop returns the cleaned concatenation of the pages in page order, which equals the concatenation of the pages cleaned one by one |
| `ChatLog.TranscriptAt` | app.py:762-766 | after n answered questions the transcript has 2n entries; entry 2i is the user's question i and entry 2i+1 the bot's answer to it, both with question i's timestamp |
| `ChatLog.TranscriptWellFormed` | app.py:762-766 | every reachable transcript has even length and is made of (user, bot) pairs that share a timestamp |
| `ChatLog.WellFormedRoles` | app.py:765-766 | in such a transcript entry i is the user's when i is even and the bot's when i is odd |
| `ChatLog.ExchangesOfTranscript` | app.py:765-766 | reading the question/answer pairs back out of the transcript gives exactly the questions answered, in order |
| `ChatLog.TranscriptOfExchanges` | app.py:765-766 | every well-formed entry list is the transcript of the pairs read back from it |
| `ChatLog.QuestionCount` | app.py:804 | the analytics count `len(chat) // 2` of an entry list; `QuestionCountOfTranscript` proves it equals the number of answered questions |
| `ChatLog.QuestionCountOfTranscript` | app.py:804 | `len(chat) // 2` equals the number of questions answered |
| `ChatLog.ChatSession.constructor` | app.py:724-725 | a new session's transcript is empty and no question has been answered |
| `ChatLog.ChatSession.Ask` | app.py:760-766 | a non-empty question with an answer appends exactly `("user", question, t)` and then `("bot", answer, t)` and leaves earlier entries unchanged; an empty question or a failed chain call changes nothing; the invariant is kept |
| `ChatLog.ChatSession.Questions` | app.py:804 | the analytics count equals the number of questions answered, and the transcript is well-formed |
| `HistoryExport.FormatEntry` | app.py:843 | one exported line `ROLE (t): m`, the role name upper-cased; `LabelValues` gives the labels and `ParseFormatEntry` proves the line reads back to its entry when `t` holds no `)` |
| `HistoryExport.Export` | app.py:833-843 | the history download: nothing for an empty transcript, otherwise every entry's line joined with `"\n\n"`; `ExportAt` and `ExportLength` prove its layout and length |
| `HistoryExport.LabelValues` | app.py:843 | `upper()` turns the roles `user` and `bot` into `USER` and `BOT` |
| `HistoryExport.ParseFormatEntry` | app.py:843 | an exported line `ROLE (t): m` reads back to its entry whenever `t` holds no `)`, which an `HH:MM` reading never does |
| `HistoryExport.FormatEntryAmbiguous` | app.py:843 | a time containing `): ` makes two different entries export as the same line `USER (a): c): b`, so the read-back needs times without `)` |
| `HistoryExport.JoinAt` | app.py:843 | the joined text is part 0, then sep, part 1, ..., and part n-1 last: part i sits at its offset, a separator follows every part but the last, and the last part ends the text |
| `HistoryExport.JoinLength` | app.py:843 | n joined parts add exactly n-1 separators to their own characters |
| `HistoryExport.ExportAt` | app.py:833-843 | a non-empty transcript exports text in which line i is entry i formatted and reads back to entry i when its time holds no `)`, which an `HH:MM` reading never does, a blank line follows every line but the last, and the last line ends the text |
| `HistoryExport.ExportLength` | app.py:833-843 | no export is produced exactly when the transcript is empty; otherwise its length is the lines' lengths plus 2(n-1) |
| `HistoryExport.ExportOneExchange` | app.py:843 | the question "Hi", answered "Hello" at 10:00, exports as `USER (10:00): Hi`, a blank line, and `BOT (10:00): Hello` |
| `Analytics.Preview` | app.py:821 | the preview is a prefix of the text followed by `...`; the part before `...` is the whole text when the text has at most 500 characters, and its first 500 characters otherwise |
| `Analytics.PreviewIgnoresTail` | app.py:821 | whatever follows the first 500 characters does not change the preview |

## Left out

- `TextCleaning.IsWordChar` approximates Python's Unicode `\w` by ASCII letters, digits and underscore. The model therefore deletes non-ASCII letters and digits (such as `é` or Devanagari) that the program keeps. Whitespace (`\s`) is modelled with Python's full `str.isspace` set.
- `HistoryExport.Upper` implements `str.upper()` for ASCII only. It is applied only to the role names `user` and `bot`, so nothing is lost for them.
- PDF opening, page text extraction and metadata (`fitz`, app.py:32, 35-36, 39-47) are foreign library calls over binary input. The pages reach `ExtractText` as strings, and the parse error of an invalid PDF is not modelled.
- Chunking (`RecursiveCharacterTextSplitter`, chunk size 1000, overlap 200), embeddings, the FAISS index, top-5 retrieval and the `ChatOpenAI` call (app.py:53-88, 762) are library and network code that is not shown. The fallback sentence in the prompt (app.py:71) is an instruction to the language model, not something the program enforces.
- API-key loading (app.py:16-21), `datetime.now()` (app.py:764, 847) and the session-state reset (app.py:628-630) are left out. The timestamp is a parameter of `Ask`.
- Streamlit reruns the script on every interaction, and a non-empty text input is answered again on each rerun of the chat view (app.py:760 sits inside the chat-view branch). `Ask` models one run of the chat view.
- The word count `len(text.split())` (app.py:810) is a figure shown on the analytics view and is not modelled; only the question count and the preview of that view are.
- All layout, CSS, buttons, the question text input, the original-PDF download view, the history download button, the page header and footer, the About view and the markdown rendering of the transcript (app.py:93-641, 642-644, 650-699, 735-758, 768-800, 823-828, 836-841, 844-849, 851-888, 889-891) are presentation.
- The once-per-upload processing (app.py:702-721) runs the PDF, chunking, embedding and question-answering-chain calls that are not modelled, and stores the cleaned text, the chain and the chunk count in the session state once per session under the `"processed"` guard; the model starts from the cleaned text that `ExtractText` returns.
