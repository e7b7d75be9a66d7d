/** The value type routed through the pipeline (org.demo.prodcon.Message). */
module Messages {

  /**
    An immutable message. `channel` selects the dispatcher's output buffer;
    the other two fields are carried along unread.
   */
  datatype Message = Message(sender: string, text: string, channel: int)
}
