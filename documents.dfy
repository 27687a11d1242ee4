/**
 * The values the assistant's components exchange: retrieved documents and the
 * outcome of a call to the hosted language model.
 */
module Documents {

  datatype Option<+T> = None | Some(value: T)

  /** A retrieved passage (a LangChain `Document`): its text and its metadata,
      of which only the `source` entry (the file path) is read. */
  datatype Document = Document(pageContent: string, metadata: map<string, string>)

  /** A call to the language model either raises or returns its content. The model
      itself is not part of this model: what it answers is an input. */
  datatype Reply<+T> = CallFailed | Answered(content: T)
}
