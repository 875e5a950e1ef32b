/** The library calls of the extractor, taken as parameters: the model fixes only how their
    results are used, not how Python's standard library computes them. */
module Library {
  import opened Wrappers
  import opened Json

  datatype Lib = Lib(
    /** `json.loads`; None stands for "raised an exception". */
    loads: string -> Option<J>,
    /** `html.unescape`. */
    unescape: string -> string,
    /** The bodies of the linked-data script tags of a page, in page order
        (the `re.findall` over `<script ... type="application/ld+json" ...>`). */
    scriptBlocks: string -> seq<string>,
    /** `re.split` of an instruction text on runs of line breaks and on ". " before "<digits>.". */
    splitSteps: string -> seq<string>,
    /** `urllib.parse.urlsplit(u).netloc`. */
    netloc: string -> string)
}
