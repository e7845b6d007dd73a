/** The output streams that the printers append to. */
module Streams {
  class OStream {
    var out: string

    constructor ()
      ensures out == ""
    {
      out := "";
    }

    method Write(text: string)
      modifies this
      ensures out == old(out) + text
    {
      out := out + text;
    }
  }
}
