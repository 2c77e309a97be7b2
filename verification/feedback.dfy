/** The status line both forms show under their submit button. */
module Feedback {

  datatype Tone = Error | Success

  datatype Message = Message(tone: Tone, text: string)
}
