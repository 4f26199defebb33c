/** The single entity of the service: a video record and its wire form. */
module Records {

  /** A stored video. Its id is not a field here: it is the key the store files it under. */
  datatype Video = Video(name: string, views: int, likes: int)

  /** The serialised form written into response bodies: `id`, `name`, `views`, `likes`. */
  datatype VideoView = VideoView(id: int, name: string, views: int, likes: int)

  /** The record a wire view describes, without its id. */
  function Unmarshal(w: VideoView): Video
  {
    Video(w.name, w.views, w.likes)
  }

  /** Response marshalling: selects exactly the four published fields of a keyed record,
      so the view carries the key it was stored under and loses nothing of the record. */
  function Marshal(id: int, v: Video): (w: VideoView)
    ensures w.id == id
    ensures Unmarshal(w) == v
  {
    VideoView(id, v.name, v.views, v.likes)
  }
}
