/**
 * The LangChain values the core builds and passes on: a Document (text
 * plus a metadata dict of plain values) and the parts of a chat message.
 */
module LangChain {
  import opened Metadata

  /** langchain_core.documents.Document with a metadata dict of values. */
  datatype Document = Document(pageContent: string, metadata: map<string, Value>)

  /** One entry of a multimodal message's content list:
      {"type": "text", "text": ...} or {"type": "image_url", "image_url": {"url": ...}}. */
  datatype Part = TextPart(text: string) | ImageUrlPart(url: string)

  /** SystemMessage(content=str) and HumanMessage(content=[parts]). */
  datatype Message = SystemMessage(content: string) | HumanMessage(parts: seq<Part>)
}
