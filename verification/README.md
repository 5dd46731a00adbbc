# PDF question generator: the backend's parsers and request handling, in Dafny

The backend of this quiz generator (`backend/app.py`) takes an uploaded PDF
and extracts its text. It asks a language model for either ten
multiple-choice questions or five open-ended questions, and reads the
model's free-text reply back into JSON records with two regular expressions.
This project models the deterministic part of that pipeline:

- **`generateMCQ` after the model call** (module `McqParser`). An absent or
  empty reply gives the error object `{"error": "Failed to generate MCQs."}`.
  Otherwise every match of the DOTALL pattern
  `(\d+): (.*?)\n\s*a\) (.*?)\n\s*b\) … \nAnswer: (.*?)\n`, in `finditer`
  order, becomes a record. The record holds the stripped question, four
  options labelled `a` to `d`, and the stripped answer text. The question
  number is dropped.
- **`generateOpenEnded` after the model call** (module `OpenParser`). An
  absent or empty reply gives `{"error": "Failed to generate OpenEnded questions."}`.
  Otherwise every `findall` match of
  `(\d+)\.\s*(.*?)\n\s*✅ Answer:\s*(.*?)(?:\n|$)` becomes
  `{number: int(num), question, answer}`, with the two texts stripped.
- **The `/generate-questions` endpoint** (module `Endpoint`). It makes three
  checks in a fixed order, each answered with status 400: a missing `pdf`
  part, an empty filename, and extracted text that is only whitespace. It
  then picks the generator from `question_type`, which defaults to `"mcq"`;
  any other value selects the open-ended generator. Whatever the generator
  returns, including its error object, is sent with status 200.

The regular expressions are run by a small backtracking matcher (module
`Regex`). It follows Python's `re`: a greedy run tries the longest end
first, a lazy run the shortest, and the first way the rest of the pattern
matches wins. `Accepts` is a relational reference semantics, and `Match` is
proved sound and complete against it. Module `Search` is the left-to-right,
non-overlapping scan of `finditer` and `findall`. Module `Strings` holds
Python's `str.isspace` table (shared by `\s` and `str.strip`), `strip`, and
`int()` on a digit string. Modules `Layout`, `McqFormat` and `OpenFormat`
prove that text written in the format each prompt shows the model is read
back into exactly the records it was written from.

The text extracted from the PDF and the model's reply are inputs to the
model. In the code, an error object from a generator still leaves the
endpoint with status 200. A multiple-choice answer is the raw text after
`Answer: ` (for example `b) A technology`), not an option label. Any
`question_type` other than the exact string `"mcq"` runs the open-ended
generator. The browser client that sends the request and grades the
answers (the quiz state machine of the React front end) is not part of
this model.

## Model

| member | source | states |
|---|---|---|
| Regex.LemmaMatchSound | backend/app.py:57 | every hit the backtracking search returns is a real match of the pattern, with the runs covering the reported spans |
| Regex.LemmaMatchComplete | backend/app.py:57 | whenever the pattern can match at a position, the search finds a match there |
| Regex.LemmaShortestPriority | backend/app.py:57 | a lazy `(.*?)` run ends at the smallest end from which the rest of the pattern matches, and fails only when no end works |
| Regex.LemmaGreedyEnd | backend/app.py:92 | a greedy run at the head of a hit stops before a character of its class only when the rest of the pattern does not match just past that character |
| Regex.LemmaLazyNone | backend/app.py:92 | a lazy `.*?` run fails only when the rest of the pattern matches at no position from the run's start to the end of the text |
| Regex.LemmaLongestPriority | backend/app.py:92 | a greedy run (`\d+`, `\s*`) ends at the largest end from which the rest of the pattern matches, and fails only when no end works |
| Layout.LemmaFirstChoice | backend/app.py:57 | when each item of a pattern takes its piece of the text on the search's first choice, the match is exactly that split, with the runs' spans where the pieces lie |
| Search.FindAll | backend/app.py:60 | the scan reports hits inside the text, in increasing order and without overlap, each the match Python picks at its start |
| Search.LemmaFindAllSound | backend/app.py:60 | every reported hit is a real match of the pattern |
| Search.LemmaFindAllLeftmost | backend/app.py:93 | no match starts before the first hit, between two consecutive hits, or after the last one |
| Search.LemmaFindAllEmpty | backend/app.py:93 | the scan reports nothing exactly when no position of the text admits a match |
| Strings.LemmaStripShape | backend/app.py:62 | `strip()` gives a text with no whitespace at either end |
| Strings.LemmaStripUnique | backend/app.py:62 | `strip()` removes exactly the leading and trailing whitespace: a text made of whitespace, a stripped core and whitespace strips to that core |
| Strings.LemmaStripIdempotent | backend/app.py:118 | stripping twice gives the same text as stripping once, so the endpoint's `strip()` of the text that `extractText` has already stripped (line 29) tests that same text |
| Strings.LemmaStripBlank | backend/app.py:118 | a text strips to the empty text exactly when every character of it is whitespace |
| Strings.LemmaDecimalRoundTrip | backend/app.py:97 | `int()` of the decimal spelling of a number is that number |
| McqParser.LemmaMcqGroups | backend/app.py:57 | the seven groups of the multiple-choice pattern are the number, the question, the four option texts and the answer; the indentation runs `\s*` are not captured |
| McqParser.RecordOf | backend/app.py:61-70 | each record has exactly four options labelled `a`, `b`, `c`, `d` in that order, and its question, option texts and answer are stripped |
| McqParser.LemmaShapedRecord | backend/app.py:61-70 | every such record is the object built from its own question, four option texts and answer, so the labels carry nothing from the reply |
| McqParser.Records | backend/app.py:60-70 | one record per hit, each of the fixed shape |
| McqParser.LemmaRecordsAt | backend/app.py:60-70 | record `k` is built from the groups of hit `k` alone, so the records follow the order of the hits |
| McqParser.ParseMcq | backend/app.py:56-72 | as many records as matches, each of the fixed shape |
| McqParser.GenerateMcq | backend/app.py:51-54 | the error object exactly when the reply is absent or empty, with the message `Failed to generate MCQs.`; otherwise the parsed list |
| McqParser.LemmaMcqNone | backend/app.py:57-72 | the list is empty exactly when the pattern matches nowhere in the reply |
| McqParser.LemmaMcqAnswerLine | backend/app.py:57-69 | the answer of each record is the stripped raw text after a newline and `Answer: `, up to the next newline, and that newline ends the hit; so an answer line without a closing newline yields no record |
| McqParser.LemmaMcqQuestion | backend/app.py:57-62 | the question of each record is the stripped text from just past the `: ` that ends the hit's leading digits up to the first position from which the four option lines and the answer line match; a newline, whitespace and `a) ` follow that position |
| McqParser.LemmaMcqOption | backend/app.py:57-68 | option `j` of each record is labelled with the `j`-th of `a`, `b`, `c`, `d`. Its line starts at the first position from which the option lines from that label on and the answer line match, searching from just past the question's `: ` for option `a` and from the start of the previous option's text otherwise. The line opens with a newline, whitespace and the label with `) `, and the text is the stripped text from just past the label up to the first position from which the remaining option lines and the answer line match. These positions are the ends of the hit's run spans, so the results for consecutive options chain and fix every option's place |
| McqFormat.LemmaScanRender | backend/app.py:60-70 | scanning questions written as the prompt shows them reports one hit per question, and each hit rebuilds its question |
| McqFormat.LemmaMcqRoundTrip | backend/app.py:56-72 | questions written in the prompt's format, numbered from 1 and each followed by a blank line, parse back to exactly those questions |
| McqFormat.LemmaGenerateMcqRoundTrip | backend/app.py:51-72 | `generateMCQ` returns exactly the questions of such a reply, and the error object when there are none, because the reply is then empty |
| OpenParser.LemmaOpenGroups | backend/app.py:92 | the three groups of the open-ended pattern are the digit run, the question run and the answer run |
| OpenParser.OpenRecord | backend/app.py:97 | the number is below ten to the power of the digit count, and the question and answer are stripped and no longer than their captures |
| OpenParser.OpenRecords | backend/app.py:96-99 | one record per hit, each with a stripped question and answer |
| OpenParser.LemmaOpenRecordsAt | backend/app.py:96-99 | record `k` is built from the groups of hit `k` alone, so the records follow the order of the hits |
| OpenParser.ParseOpen | backend/app.py:91-99 | as many records as matches, each with a stripped question and answer |
| OpenParser.GenerateOpen | backend/app.py:89-90 | the error object exactly when the reply is absent or empty, with the message `Failed to generate OpenEnded questions.`; otherwise the parsed list |
| OpenParser.LemmaOpenNone | backend/app.py:92-99 | the list is empty exactly when the pattern matches nowhere in the reply |
| OpenParser.LemmaOpenNumber | backend/app.py:92-97 | the number of each record is `int()` of the digits its hit starts with, which a full stop follows |
| OpenParser.LemmaOpenQuestion | backend/app.py:92-97 | the question of each record is the stripped text from the end of the whitespace run `\s*` takes after the full stop that ends the number's digits, up to the first newline from which an answer line matches. The run stops before more whitespace only when no answer line follows anywhere later, and starting just past the full stop instead strips to the same question |
| OpenParser.LemmaQuestionAtUnique | backend/app.py:92 | the layout of a hit's question part has one reading only: two layouts from the same start agree on the full stop, the end of the whitespace run and the end of the question |
| OpenParser.LemmaMarkUnique | backend/app.py:92 | the `✅ Answer:` marker that follows a newline and whitespace starts at the first character that is not whitespace, so its place is fixed |
| OpenParser.LemmaOpenAnswer | backend/app.py:92-97 | the question part of each record's hit is laid out as for `OpenParser.LemmaOpenQuestion`. The `✅ Answer:` marker follows the newline that ends the question and whitespace. The answer is the stripped text from just past the marker up to the first newline, which ends the hit, or up to the end of the reply |
| OpenFormat.LemmaScanRender | backend/app.py:93-99 | scanning questions written as the prompt shows them reports one hit per question, and each hit rebuilds its question |
| OpenFormat.LemmaOpenRoundTrip | backend/app.py:91-99 | questions written in the prompt's format, each followed by a blank line, parse back to exactly those questions, numbers included |
| OpenFormat.LemmaGenerateOpenRoundTrip | backend/app.py:89-99 | `generateOpenEnded` returns exactly the questions of such a reply, and the error object when there are none |
| Endpoint.QuestionType | backend/app.py:109 | the `question_type` field, or `"mcq"` when the form does not send it |
| Endpoint.Decide | backend/app.py:105-123 | a missing file is rejected first, then an empty filename, then whitespace-only text; a valid request runs the multiple-choice generator exactly when the type is missing or exactly `"mcq"`, and the open-ended one for every other type |
| Endpoint.GenerateQuestions | backend/app.py:105-127 | status 400 exactly when the request is rejected, and then the body is an error object; status 200 otherwise, with an error body exactly when the model's reply is absent or empty |
| Endpoint.LemmaPrecedence | backend/app.py:105-119 | the exact response for each rejection, in the order the checks are made |
| Endpoint.LemmaRejectIgnoresReply | backend/app.py:105-119 | a rejected request's response depends neither on the model's reply nor on the type asked for |
| Endpoint.LemmaDefaultIsMcq | backend/app.py:109 | leaving `question_type` out gives the same response as sending `"mcq"` |
| Endpoint.LemmaOtherTypeIsOpen | backend/app.py:123 | for a valid request, a type selects the multiple-choice generator only when it equals `"mcq"` exactly |
| Endpoint.LemmaMcqEndToEnd | backend/app.py:123-127 | a valid multiple-choice request whose reply lists questions in the prompt's format is answered with status 200 and exactly those questions |
| Endpoint.LemmaOpenEndToEnd | backend/app.py:123-127 | a valid open-ended request whose reply lists questions in the prompt's format is answered with status 200 and exactly those questions |
| Endpoint.LemmaNoReply | backend/app.py:123-127 | a valid request that gets no reply from the model is answered with status 200 and the error object of the generator that ran |

## Left out

- PDF text extraction (`extractText`, backend/app.py:19-29) calls PyMuPDF on a saved file. Its result is the `text` parameter of `Endpoint.Decide` and `Endpoint.GenerateQuestions`.
- Endpoint.GenerateQuestions: the model promises status 200 for every request that passes the three checks, but the handler can also end in an unhandled exception, which Flask answers with status 500. Four calls can raise, and none is inside a `try`: `pdf_file.save` (backend/app.py:115), `fitz.open` or `get_text` on an upload that is not a readable PDF (backend/app.py:21-28, 116), `client.models.generate_content` (backend/app.py:47-49, 86-88), and `os.remove` (backend/app.py:125), which raises `FileNotFoundError` when another request has already removed `temp.pdf`. The model treats extraction and the model call as total parameters, so this 500 path is not modelled.
- OpenParser.OpenRecord: `int(num)` (backend/app.py:97) is modelled as unlimited. On CPython 3.11 and later, `int()` of a string of more than 4300 digits raises `ValueError`, so such a reply would end in a 500 response instead of a record. The model returns the number for a digit run of any length.
- Overlapping requests: every valid request saves its upload to the same fixed path `temp.pdf` (backend/app.py:114-116, 125), and `app.run(debug=True)` (backend/app.py:131) serves requests on threads. If two requests overlap, one can extract the text of the other's upload and be answered with questions about it, or find the file already removed at `os.remove` and end in a 500. The model treats each request on its own: its `text` parameter is the text of that request's own upload.
- The language-model call and the prompts (backend/app.py:14, 34-49, 76-88) go to a remote service. Its reply is the `Option<string>` parameter of the generators: `None` stands for a missing response or a missing `text`.
- Flask, CORS and request parsing, `jsonify`, and the debug `print` (backend/app.py:1-17, 121, 127-130) are web plumbing. So is saving and removing `temp.pdf` (backend/app.py:114-115, 125). The model does not track the file, so it does not show that the 400 "No text found in PDF" response returns before `os.remove` and leaves the file behind.
- The JSON key names (`question`, `options`, `label`, `text`, `answer`, `number`, `error`) are datatype fields in the model, not strings.
- `\d` and `int()` in Python also accept non-ASCII decimal digits. The model's digit class is `0`-`9` only.
- The matcher covers only the constructs these two patterns use: literals, `\d`, `\s` and DOTALL `.` runs (greedy or lazy, captured or not), and `(?:\n|$)`.
- `Search.FindAll` requires a pattern that cannot match the empty text. Both patterns start with `\d+`, so the special rules of `finditer` and `findall` for empty matches are not modelled.
- The round-trip lemmas cover only replies in the exact layout of each prompt's example, with one blank line between questions. For multiple-choice records (`McqFormat.Renderable`), the question, the four option texts and the answer must be stripped and on one line each; they may be empty. For open-ended records (`OpenFormat.Renderable`), the question and the answer must be stripped, non-empty and on one line each. For other replies, `McqParser.LemmaMcqQuestion`, `McqParser.LemmaMcqOption`, `McqParser.LemmaMcqAnswerLine`, `OpenParser.LemmaOpenNumber`, `OpenParser.LemmaOpenQuestion` and `OpenParser.LemmaOpenAnswer` state, for each record, where each field lies in its hit and what it strips to. They describe each record on its own, not which records a reply yields as a whole.
- The React front end (`frontend/src/App.tsx`, `frontend/src/components/HomePage.tsx`) only routes and shows static content. The quiz component it imports, `QuestionGenerator`, is not part of this model.
