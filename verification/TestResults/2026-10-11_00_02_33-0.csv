TestResult.DisplayName,TestResult.Outcome,TestResult.Duration,TestResult.ResourceCount,RandomSeed
NtpServer.StartRaceLosesListening (correctness),Passed,00:00:00.3452094,1176540,1
NtpServer.Reply (well-formedness),Passed,00:00:00.3388844,1259992,1
NtpServer.RunSendsAnswers (correctness),Passed,00:00:00.3336974,1215398,1
NtpServer.Respond (well-formedness),Passed,00:00:00.2791812,917284,1
NtpServer.Step (well-formedness),Passed,00:00:00.2113850,238168,1
NtpServer.Feasible (well-formedness),Passed,00:00:00.1810138,227917,1
NtpServer.ClientReadsReplyLayout (correctness),Passed,00:00:00.1770641,803314,1
NtpServer.OnReceiveData (well-formedness),Passed,00:00:00.1727698,216516,1
NtpServer.ReplyBytes (well-formedness),Passed,00:00:00.1709899,617839,1
NtpServer.ClientReadsReply (well-formedness),Passed,00:00:00.1649302,294911,1
NtpServer.ReplyLayoutBytes (correctness),Passed,00:00:00.1590460,647003,1
NtpServer.ReplyParsesBack (correctness),Passed,00:00:00.1501459,306642,1
NtpServer.ClientReadsReply (correctness),Passed,00:00:00.1408932,264825,1
NtpServer.AtomicStartsKeepListening (correctness),Passed,00:00:00.1391868,331327,1
NtpServer.Answers (well-formedness),Passed,00:00:00.1327487,203452,1
NtpServer.Run (well-formedness),Passed,00:00:00.1310073,238308,1
NtpServer.ClientReadsReplyLayout (well-formedness),Passed,00:00:00.1267346,200643,1
NtpServer.EventKeepsListening (well-formedness),Passed,00:00:00.1256148,225709,1
NtpServer.RunKeepsListening (well-formedness),Passed,00:00:00.1245720,228547,1
NtpServer.DeafUntilRestarted (correctness),Passed,00:00:00.1234396,303009,1
NtpServer.RunSendsAnswers (well-formedness),Passed,00:00:00.1197618,229504,1
NtpServer.RunKeepsListening (correctness),Passed,00:00:00.1120925,246522,1
NtpServer.ReplyDependsOnlyOnTransmit (correctness),Passed,00:00:00.1098083,221386,1
NtpServer.StoppedServerBound (well-formedness),Passed,00:00:00.1052810,224156,1
NtpServer.WorkingServerRearms (well-formedness),Passed,00:00:00.1023457,230616,1
NtpServer.StoppedServerDrains (well-formedness),Passed,00:00:00.1017606,230669,1
NtpServer.ReplyBytes (correctness),Passed,00:00:00.1010524,202889,1
NtpServer.CompletionStep (correctness),Passed,00:00:00.0998969,229694,1
NtpServer.ReplyParsesBack (well-formedness),Passed,00:00:00.0963769,185556,1
NtpServer.ReplyPacket (well-formedness),Passed,00:00:00.0958863,68318,1
NtpServer.ReplyDependsOnlyOnTransmit (well-formedness),Passed,00:00:00.0930778,185628,1
NtpServer.EventKeepsListening (correctness),Passed,00:00:00.0845377,243176,1
NtpServer.StoppedServerBound (correctness),Passed,00:00:00.0820301,236002,1
NtpServer.StoppedServerDrains (correctness),Passed,00:00:00.0797079,284590,1
NtpServer.WorkingServerRearms (correctness),Passed,00:00:00.0775786,281605,1
NtpServer.AtomicStartsKeepListening (well-formedness),Passed,00:00:00.0740780,232405,1
NtpServer.StartRaceLosesListening (well-formedness),Passed,00:00:00.0721173,233115,1
NtpServer.CompletionStep (well-formedness),Passed,00:00:00.0706742,224438,1
NtpServer.ReplyBody (well-formedness),Passed,00:00:00.0700212,18377,1
NtpServer.DeafUntilRestarted (well-formedness),Passed,00:00:00.0670946,230879,1
NtpServer.TransmitBytes (correctness),Passed,00:00:00.0505717,165685,1
NtpServer.TransmitBytes (well-formedness),Passed,00:00:00.0422313,32493,1
NtpServer.ReplyLayoutBytes (well-formedness),Passed,00:00:00.0418220,55934,1
NtpServer.ReplyPacketHeader (correctness),Passed,00:00:00.0410475,136762,1
NtpServer.Start (well-formedness),Passed,00:00:00.0197156,25812,1
NtpServer.StartFirstHalf (well-formedness),Passed,00:00:00.0172598,18512,1
NtpServer.StartSecondHalf (well-formedness),Passed,00:00:00.0127708,18921,1
NtpServer.Stop (well-formedness),Passed,00:00:00.0095579,9804,1
NtpServer.Initial (well-formedness),Passed,00:00:00.0087480,3717,1
NtpServer.Rearm (well-formedness),Passed,00:00:00.0087379,15129,1
NtpServer.AtomicStarts (well-formedness),Passed,00:00:00.0086670,13401,1
NtpServer.ZeroField16 (correctness),Passed,00:00:00.0060245,9931,1
NtpServer.ZeroField16 (well-formedness),Passed,00:00:00.0055007,9672,1
