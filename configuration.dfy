/** The site configuration module the helpers and the picture component read. */
module Configuration {

  datatype Config = Config(
    spCanvasWidth: int,                  // sp.canvasWidth: design width of the narrow layout, in px
    spBreakpoint: int,                   // sp.breakpoint: largest narrow viewport, in px
    pcBreakpoint: int,                   // pc.breakpoint: smallest wide viewport, in px
    imgDir: string,                      // path.img.dir: root directory of the images
    imgPc: string,                       // path.img.pc: sub-directory of the wide-layout images
    imgSp: string,                       // path.img.sp: sub-directory of the narrow-layout images
    mediaQueries: map<string, string>    // mediaQueries: breakpoint label to media condition
  )
}
