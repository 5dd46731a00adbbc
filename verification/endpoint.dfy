/** The `/generate-questions` endpoint: the checks on the upload, the choice
    of generator from the `question_type` form field, and the status and
    body of the response. The text extracted from the PDF and the model's
    reply are inputs. */
module Endpoint {
  import opened Wrappers
  import opened Strings
  import McqParser
  import OpenParser
  import McqFormat
  import OpenFormat

  /** The `pdf` part of a multipart request. */
  datatype Upload = Upload(filename: string)

  /** The parts of the request the endpoint reads: the `pdf` file and the
      `question_type` form field, either of which may be missing. */
  datatype Request = Request(pdf: Option<Upload>, questionType: Option<string>)

  /** What the endpoint does once it has looked at the request and the
      extracted text: reject it, or run one of the two generators. */
  datatype Decision = Reject(error: string) | RunMcq | RunOpen

  /** The JSON body: an error object, or the list one generator produced. */
  datatype Body =
    | Error(message: string)
    | Mcqs(mcqs: seq<McqParser.Mcq>)
    | Opens(questions: seq<OpenParser.OpenQuestion>)

  datatype Response = Response(status: nat, body: Body)

  const BadRequest: nat := 400
  const Ok: nat := 200

  const NoFile: string := "No file uploaded"
  const EmptyName: string := "Empty filename"
  const NoText: string := "No text found in PDF"

  /** The form field `question_type`, `"mcq"` when it is missing. */
  function QuestionType(req: Request): (t: string)
    ensures req.questionType.None? ==> t == "mcq"
    ensures req.questionType.Some? ==> t == req.questionType.value
  {
    req.questionType.GetOr("mcq")
  }

  /** A file was uploaded and it has a name. */
  predicate Named(req: Request) {
    req.pdf.Some? && req.pdf.value.filename != ""
  }

  /** The checks in the order the endpoint makes them, then the choice of
      generator: only the exact type `"mcq"`, or no type at all, selects
      the multiple-choice generator. */
  function Decide(req: Request, text: string): (d: Decision)
    ensures d == Reject(NoFile) <==> req.pdf.None?
    ensures d == Reject(EmptyName) <==> req.pdf.Some? && req.pdf.value.filename == ""
    ensures d == Reject(NoText) <==> Named(req) && AllSpace(text)
    ensures d.RunMcq? <==>
      Named(req) && !AllSpace(text) && (req.questionType.None? || req.questionType == Some("mcq"))
    ensures d.RunOpen? <==>
      Named(req) && !AllSpace(text) && req.questionType.Some? && req.questionType.value != "mcq"
  {
    LemmaStripBlank(text);
    if req.pdf.None? then Reject(NoFile)
    else if req.pdf.value.filename == "" then Reject(EmptyName)
    else if Strip(text) == "" then Reject(NoText)
    else if QuestionType(req) == "mcq" then RunMcq
    else RunOpen
  }

  /** The error object of a generator, or the list it produced, as a body. */
  function McqBody(g: Generated<McqParser.Mcq>): (b: Body)
    ensures g.Failed? ==> b == Error(g.error)
    ensures g.Produced? ==> b == Mcqs(g.items)
  {
    match g
    case Failed(e) => Error(e)
    case Produced(ms) => Mcqs(ms)
  }

  function OpenBody(g: Generated<OpenParser.OpenQuestion>): (b: Body)
    ensures g.Failed? ==> b == Error(g.error)
    ensures g.Produced? ==> b == Opens(g.items)
  {
    match g
    case Failed(e) => Error(e)
    case Produced(qs) => Opens(qs)
  }

  /** The endpoint, given the text extracted from the upload and the model's
      reply to whichever generator runs. A rejected request is answered with
      400; a generator's error object is sent with 200 like its list. */
  function GenerateQuestions(req: Request, text: string, reply: Option<string>): (r: Response)
    ensures r.status == BadRequest <==> !Named(req) || AllSpace(text)
    ensures r.status == Ok <==> Named(req) && !AllSpace(text)
    ensures r.status == BadRequest ==> r.body.Error?
    ensures r.status == Ok && r.body.Error? <==> Named(req) && !AllSpace(text) && (reply.None? || reply.value == "")
  {
    match Decide(req, text)
    case Reject(e) => Response(BadRequest, Error(e))
    case RunMcq => Response(Ok, McqBody(McqParser.GenerateMcq(reply)))
    case RunOpen => Response(Ok, OpenBody(OpenParser.GenerateOpen(reply)))
  }

  // ----- properties of the endpoint -----

  /** A missing file is reported first, whatever else is wrong; an empty
      filename before empty text. Neither depends on the text or the type. */
  lemma LemmaPrecedence(req: Request, text: string, reply: Option<string>)
    ensures req.pdf.None? ==> GenerateQuestions(req, text, reply) == Response(400, Error("No file uploaded"))
    ensures req.pdf.Some? && req.pdf.value.filename == "" ==>
      GenerateQuestions(req, text, reply) == Response(400, Error("Empty filename"))
    ensures Named(req) && AllSpace(text) ==>
      GenerateQuestions(req, text, reply) == Response(400, Error("No text found in PDF"))
  {
  }

  /** A rejected request never reaches the model: its response is the same
      whatever the reply would have been, and whatever type was asked for. */
  lemma LemmaRejectIgnoresReply(req: Request, text: string, t: Option<string>, r1: Option<string>, r2: Option<string>)
    requires Decide(req, text).Reject?
    ensures GenerateQuestions(req, text, r1) == GenerateQuestions(req, text, r2)
    ensures GenerateQuestions(req.(questionType := t), text, r1) == GenerateQuestions(req, text, r1)
  {
  }

  /** Leaving `question_type` out is the same as sending `"mcq"`. */
  lemma LemmaDefaultIsMcq(req: Request, text: string, reply: Option<string>)
    ensures GenerateQuestions(req.(questionType := None), text, reply)
         == GenerateQuestions(req.(questionType := Some("mcq")), text, reply)
  {
  }

  /** Any type other than the exact string `"mcq"` selects the open-ended
      generator, even one that differs from it only in case or spacing. */
  lemma LemmaOtherTypeIsOpen(req: Request, text: string, t: string)
    requires Named(req) && !AllSpace(text)
    ensures Decide(req.(questionType := Some(t)), text) == (if t == "mcq" then RunMcq else RunOpen)
  {
  }

  /** A valid multiple-choice request whose reply lists questions in the
      prompt's format is answered with exactly those questions. */
  lemma LemmaMcqEndToEnd(req: Request, text: string, ms: seq<McqParser.Mcq>)
    requires Named(req) && !AllSpace(text) && QuestionType(req) == "mcq"
    requires |ms| > 0 && forall k :: 0 <= k < |ms| ==> McqFormat.Renderable(ms[k])
    ensures GenerateQuestions(req, text, Some(McqFormat.RenderMcq(ms, 1))) == Response(200, Mcqs(ms))
  {
    McqFormat.LemmaGenerateMcqRoundTrip(ms);
  }

  /** A valid open-ended request whose reply lists questions in the prompt's
      format is answered with exactly those questions. */
  lemma LemmaOpenEndToEnd(req: Request, text: string, qs: seq<OpenParser.OpenQuestion>)
    requires Named(req) && !AllSpace(text) && QuestionType(req) != "mcq"
    requires |qs| > 0 && OpenFormat.AllRenderable(qs)
    ensures GenerateQuestions(req, text, Some(OpenFormat.RenderOpen(qs))) == Response(200, Opens(qs))
  {
    OpenFormat.LemmaGenerateOpenRoundTrip(qs);
  }

  /** When the model gives no reply, a valid request still gets status 200,
      with the error object of the generator that ran. */
  lemma LemmaNoReply(req: Request, text: string, reply: Option<string>)
    requires Named(req) && !AllSpace(text)
    requires reply.None? || reply.value == ""
    ensures GenerateQuestions(req, text, reply) == Response(200, Error(
      if QuestionType(req) == "mcq" then "Failed to generate MCQs."
      else "Failed to generate OpenEnded questions."))
  {
  }
}
